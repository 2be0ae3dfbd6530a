/**
 * `LibraryServiceImpl`: the ISBN-keyed catalog, kept in step with the
 * inventory ledger, in front of the patron registry and the lending
 * coordinator. Its invariant `Valid` says the ledger tracks exactly the
 * catalog's non-empty ISBNs and its two maps mirror each other (so no book
 * ever has two holders).
 */
module Service {
  import opened Errors
  import opened Collections
  import opened Text
  import opened Books
  import opened Patrons
  import opened PatronRegistry
  import L = Ledger
  import opened Inventory
  import Lending

  /** Which field a catalog search looks at. */
  datatype Field = Title | Author

  function FieldOf(b: Book, field: Field): string {
    match field
    case Title => b.title
    case Author => b.author
  }

  /**
   * `findBooksByTitle` / `findBooksByAuthor`: an empty query throws; otherwise
   * the catalog entries whose field contains the query, ignoring case. The
   * list the code returns is this sub-catalog's values in the catalog's
   * iteration order.
   */
  function Matching(books: map<string, Book>, query: string, field: Field): (r: Result<map<string, Book>>)
    ensures r.Err? <==> query == ""
    ensures r.Err? ==> r.ex == IllegalArgument
    ensures r.Ok? ==> r.value.Keys <= books.Keys
    ensures r.Ok? ==> forall isbn :: isbn in books ==>
              (isbn in r.value <==> ContainsIgnoreCase(FieldOf(books[isbn], field), query))
    ensures r.Ok? ==> forall isbn :: isbn in r.value ==> r.value[isbn] == books[isbn]
  {
    if query == "" then Err(IllegalArgument)
    else Ok(map isbn | isbn in books && ContainsIgnoreCase(FieldOf(books[isbn], field), query) :: books[isbn])
  }

  /** Searching ignores the query's case: a query and its lower-cased form find the same books. */
  lemma MatchingIgnoresQueryCase(books: map<string, Book>, query: string, field: Field)
    requires query != ""
    ensures Matching(books, query, field) == Matching(books, ToLower(query), field)
  {
    assert |ToLower(query)| == |query|;
    var m1 := Matching(books, query, field).value;
    var m2 := Matching(books, ToLower(query), field).value;
    forall isbn | isbn in books
      ensures isbn in m1 <==> isbn in m2
    {
      ContainsIgnoreCaseProperties(FieldOf(books[isbn], field), query, query);
    }
    assert m1.Keys == m2.Keys;
    assert m1 == m2;
  }

  /** Every catalogued book whose field is exactly the query is found. */
  lemma MatchingFindsExactField(books: map<string, Book>, query: string, field: Field)
    requires query != ""
    ensures forall isbn :: isbn in books && FieldOf(books[isbn], field) == query ==> isbn in Matching(books, query, field).value
  {
    forall isbn | isbn in books && FieldOf(books[isbn], field) == query
      ensures ContainsIgnoreCase(query, query)
    {
      ContainsIgnoreCaseProperties(query, query, query);
    }
  }

  /** A longer query finds no more books than any non-empty piece of it. */
  lemma MatchingNarrows(books: map<string, Book>, query: string, piece: string, field: Field)
    requires query != "" && piece != "" && IsSubstring(piece, query)
    ensures Matching(books, query, field).value.Keys <= Matching(books, piece, field).value.Keys
  {
    forall isbn | isbn in Matching(books, query, field).value
      ensures isbn in Matching(books, piece, field).value
    {
      ContainsIgnoreCaseProperties(FieldOf(books[isbn], field), query, piece);
    }
  }

  class LibraryServiceImpl {
    /** ISBN -> book: the catalog. */
    var books: map<string, Book>
    const inventoryManager: InventoryManager
    const patronManager: PatronManager
    const lendingManager: Lending.LendingManager

    /**
     * The lending coordinator works on this service's own inventory and
     * registry; the ledger tracks exactly the catalog's non-empty ISBNs; the
     * ledger's two maps mirror each other.
     */
    ghost predicate Valid()
      reads this, inventoryManager
    {
      && lendingManager.inventoryManager == inventoryManager
      && lendingManager.patronManager == patronManager
      && inventoryManager.borrowedBooks.Keys == books.Keys - {""}
      && L.Mirrored(inventoryManager.State())
    }

    constructor ()
      ensures Valid() && fresh(inventoryManager) && fresh(patronManager) && fresh(lendingManager)
      ensures books == map[] && inventoryManager.State() == L.Empty && patronManager.patrons == map[]
    {
      books := map[];
      var inventory := new InventoryManager();
      var patrons := new PatronManager();
      inventoryManager := inventory;
      patronManager := patrons;
      lendingManager := new Lending.LendingManager(inventory, patrons);
    }

    /**
     * `addBook`: a null book, or one whose ISBN is catalogued already, throws
     * with nothing changed. Otherwise the book is catalogued under its ISBN and
     * the ledger starts tracking it as available; but a book with an empty ISBN
     * is catalogued first and the ledger then throws, so the call fails with
     * the book left in the catalog and the ledger unchanged.
     */
    method AddBook(book: Option<Book>) returns (r: Outcome)
      requires Valid()
      modifies this, inventoryManager
      ensures Valid()
      ensures book.None? || book.value.isbn in old(books) ==>
                r == Thrown(IllegalArgument) && books == old(books) && inventoryManager.State() == old(inventoryManager.State())
      ensures book.Some? && book.value.isbn !in old(books) ==> books == old(books)[book.value.isbn := book.value]
      ensures book.Some? && book.value.isbn !in old(books) && book.value.isbn == "" ==>
                r == Thrown(IllegalArgument) && inventoryManager.State() == old(inventoryManager.State())
      ensures book.Some? && book.value.isbn !in old(books) && book.value.isbn != "" ==>
                r == Done && inventoryManager.State() == L.Initialize(old(inventoryManager.State()), book.value.isbn).value &&
                inventoryManager.IsBookAvailable(book.value.isbn)
    {
      if book.None? {
        return Thrown(IllegalArgument);
      }
      var b := book.value;
      if b.isbn in books {
        return Thrown(IllegalArgument);
      }
      L.OperationsKeepMirrored(inventoryManager.State(), b.isbn, "");
      books := books[b.isbn := b];
      r := inventoryManager.InitializeBookInventory(b.isbn);
    }

    /**
     * `removeBook`: an empty or uncatalogued ISBN throws IllegalArgument; a
     * book somebody holds throws IllegalState; in each case nothing changes.
     * Otherwise the ISBN leaves both the catalog and the ledger.
     */
    method RemoveBook(isbn: string) returns (r: Outcome)
      requires Valid()
      modifies this, inventoryManager
      ensures Valid()
      ensures isbn == "" || isbn !in old(books) ==>
                r == Thrown(IllegalArgument) && books == old(books) && inventoryManager.State() == old(inventoryManager.State())
      ensures isbn != "" && isbn in old(books) && !old(inventoryManager.IsBookAvailable(isbn)) ==>
                r == Thrown(IllegalState) && books == old(books) && inventoryManager.State() == old(inventoryManager.State())
      ensures isbn != "" && isbn in old(books) && old(inventoryManager.IsBookAvailable(isbn)) ==>
                r == Done && books == old(books) - {isbn} && inventoryManager.State() == L.Remove(old(inventoryManager.State()), isbn).value
    {
      if isbn == "" || isbn !in books {
        return Thrown(IllegalArgument);
      }
      if !inventoryManager.IsBookAvailable(isbn) {
        return Thrown(IllegalState);
      }
      L.OperationsKeepMirrored(inventoryManager.State(), isbn, "");
      books := books - {isbn};
      r := inventoryManager.RemoveBookFromInventory(isbn);
    }

    /**
     * `updateBook`: an empty ISBN, a null book or an uncatalogued ISBN throws
     * with nothing changed; otherwise only the catalog entry is replaced (the
     * new book's own ISBN is not checked against the key) and the ledger is
     * untouched.
     */
    method UpdateBook(isbn: string, updatedBook: Option<Book>) returns (r: Outcome)
      requires Valid()
      modifies this
      ensures Valid()
      ensures r == Done <==> isbn != "" && updatedBook.Some? && isbn in old(books)
      ensures r != Done ==> r == Thrown(IllegalArgument) && books == old(books)
      ensures r == Done ==> books == old(books)[isbn := updatedBook.value] && books.Keys == old(books).Keys
    {
      if isbn == "" || updatedBook.None? || isbn !in books {
        return Thrown(IllegalArgument);
      }
      books := books[isbn := updatedBook.value];
      return Done;
    }

    /** `findBookByIsbn`: an empty ISBN throws; otherwise the catalogued book, or null. */
    function FindBookByIsbn(isbn: string): (r: Result<Option<Book>>)
      reads this
      ensures r.Err? <==> isbn == ""
      ensures r.Err? ==> r.ex == IllegalArgument
      ensures r.Ok? ==> (r.value.Some? <==> isbn in books)
      ensures r.Ok? && r.value.Some? ==> r.value.value == books[isbn]
    {
      if isbn == "" then Err(IllegalArgument)
      else if isbn in books then Ok(Some(books[isbn]))
      else Ok(None)
    }

    /** `findBooksByTitle`. */
    function FindBooksByTitle(title: string): (r: Result<map<string, Book>>)
      reads this
      ensures r == Matching(books, title, Title)
      ensures r.Ok? ==> forall isbn :: isbn in books && books[isbn].title == title ==> isbn in r.value
    {
      if title == "" then Matching(books, title, Title)
      else
        MatchingFindsExactField(books, title, Title);
        Matching(books, title, Title)
    }

    /** `findBooksByAuthor`. */
    function FindBooksByAuthor(author: string): (r: Result<map<string, Book>>)
      reads this
      ensures r == Matching(books, author, Author)
      ensures r.Ok? ==> forall isbn :: isbn in books && books[isbn].author == author ==> isbn in r.value
    {
      if author == "" then Matching(books, author, Author)
      else
        MatchingFindsExactField(books, author, Author);
        Matching(books, author, Author)
    }

    /** `getAllBooks`: one entry per catalogued ISBN, in the catalog's iteration order `isbns`. */
    method GetAllBooks() returns (all: seq<Book>, ghost isbns: seq<string>)
      ensures |all| == |isbns| == |books| && NoDuplicates(isbns)
      ensures forall isbn :: isbn in isbns <==> isbn in books
      ensures forall i :: 0 <= i < |isbns| ==> isbns[i] in books && all[i] == books[isbns[i]]
    {
      all, isbns := Values(books);
    }

    /**
     * `checkoutBook`: first, when the ISBN is catalogued, the registered
     * patron (if any) gets the catalogued book in its borrowing history (an
     * empty patron id makes the lookup throw, before anything changes); then
     * the lending coordinator decides. So the history grows even when lending
     * then answers false.
     */
    method CheckoutBook(isbn: string, patronId: string) returns (r: Result<bool>)
      requires Valid()
      modifies inventoryManager, patronManager.patrons.Values
      ensures Valid()
      ensures Lending.Checkout(old(inventoryManager.State()), patronManager.PatronExists(patronId), isbn, patronId).Err? ==>
                r == Err(IllegalArgument) && inventoryManager.State() == old(inventoryManager.State())
      ensures Lending.Checkout(old(inventoryManager.State()), patronManager.PatronExists(patronId), isbn, patronId).Ok? ==>
                r == Ok(Lending.Checkout(old(inventoryManager.State()), patronManager.PatronExists(patronId), isbn, patronId).value.ok) &&
                inventoryManager.State() == Lending.Checkout(old(inventoryManager.State()), patronManager.PatronExists(patronId), isbn, patronId).value.ledger
      ensures isbn in books && patronManager.PatronExists(patronId) ==>
                && patronManager.patrons[patronId].borrowingHistory == AddIfAbsent(old(patronManager.patrons[patronId].borrowingHistory), books[isbn])
                && patronManager.patrons[patronId].name == old(patronManager.patrons[patronId].name)
                && patronManager.patrons[patronId].email == old(patronManager.patrons[patronId].email)
                && patronManager.patrons[patronId].phoneNumber == old(patronManager.patrons[patronId].phoneNumber)
                && forall p :: p in patronManager.patrons.Values && p != patronManager.patrons[patronId] ==> unchanged(p)
      ensures !(isbn in books && patronManager.PatronExists(patronId)) ==> unchanged(patronManager.patrons.Values)
    {
      if isbn in books {
        var found := patronManager.FindPatronById(patronId);
        if found.Err? {
          return Err(found.ex);
        }
        var patron := found.value;
        if patron != null {
          patron.AddToBorrowingHistory(books[isbn]);
        }
      }
      Lending.LendingKeepsMirrored(inventoryManager.State(), patronManager.PatronExists(patronId), isbn, patronId);
      r := lendingManager.CheckoutBook(isbn, patronId);
    }

    /** `returnBook`: exactly the lending coordinator's return; no patron object changes. */
    method ReturnBook(isbn: string, patronId: string) returns (r: Result<bool>)
      requires Valid()
      modifies inventoryManager
      ensures Valid()
      ensures Lending.Return(old(inventoryManager.State()), patronManager.PatronExists(patronId), isbn, patronId).Err? ==>
                r == Err(IllegalArgument) && inventoryManager.State() == old(inventoryManager.State())
      ensures Lending.Return(old(inventoryManager.State()), patronManager.PatronExists(patronId), isbn, patronId).Ok? ==>
                r == Ok(Lending.Return(old(inventoryManager.State()), patronManager.PatronExists(patronId), isbn, patronId).value.ok) &&
                inventoryManager.State() == Lending.Return(old(inventoryManager.State()), patronManager.PatronExists(patronId), isbn, patronId).value.ledger
    {
      Lending.LendingKeepsMirrored(inventoryManager.State(), patronManager.PatronExists(patronId), isbn, patronId);
      r := lendingManager.ReturnBook(isbn, patronId);
    }

    /** `addPatron`: the registry's own `addPatron`; the catalog and the ledger are untouched. */
    method AddPatron(patron: Patron?) returns (r: Outcome)
      requires Valid()
      modifies patronManager
      ensures Valid()
      ensures patron == null || patron.patronId in old(patronManager.patrons) ==>
                r == Thrown(IllegalArgument) && patronManager.patrons == old(patronManager.patrons)
      ensures patron != null && patron.patronId !in old(patronManager.patrons) ==>
                r == Done && patronManager.patrons == old(patronManager.patrons)[patron.patronId := patron]
    {
      r := patronManager.AddPatron(patron);
    }

    /** `updatePatron`: the registry's own `updatePatron`; the catalog and the ledger are untouched. */
    method UpdatePatron(patronId: string, updatedPatron: Patron?) returns (r: Outcome)
      requires Valid()
      modifies patronManager
      ensures Valid()
      ensures r == Done <==> patronId != "" && updatedPatron != null && patronId in old(patronManager.patrons)
      ensures r != Done ==> r == Thrown(IllegalArgument) && patronManager.patrons == old(patronManager.patrons)
      ensures r == Done ==> patronManager.patrons == old(patronManager.patrons)[patronId := updatedPatron]
    {
      r := patronManager.UpdatePatron(patronId, updatedPatron);
    }

    /** `getAvailableBookCount`: an empty ISBN throws; an uncatalogued one gives 0; otherwise the ledger's 1 or 0. */
    function GetAvailableBookCount(isbn: string): (r: Result<int>)
      reads this, inventoryManager
      ensures r.Err? <==> isbn == ""
      ensures r.Err? ==> r.ex == IllegalArgument
      ensures r.Ok? ==> (r.value == 1 <==> isbn in books && inventoryManager.IsBookAvailable(isbn))
      ensures r.Ok? ==> r.value == 0 || r.value == 1
    {
      if isbn == "" then Err(IllegalArgument)
      else if isbn !in books then Ok(0)
      else Ok(inventoryManager.GetAvailableCount(isbn))
    }

    /** `getAvailableBooks`: the catalogued books nobody holds, one per ISBN, in iteration order `isbns`. */
    method GetAvailableBooks() returns (available: seq<Book>, ghost isbns: seq<string>)
      requires Valid()
      ensures |available| == |isbns| && NoDuplicates(isbns)
      ensures forall i :: 0 <= i < |isbns| ==> isbns[i] in books && available[i] == books[isbns[i]]
      ensures forall isbn :: isbn in isbns <==> isbn in books && inventoryManager.IsBookAvailable(isbn)
    {
      available, isbns := inventoryManager.GetAvailableBooks(books);
      forall isbn
        ensures isbn in isbns <==> isbn in books && inventoryManager.IsBookAvailable(isbn)
      {
        assert isbn in isbns <==> isbn in (set i | i in isbns);
        assert isbn in L.AvailableIsbns(inventoryManager.State(), books.Keys) <==>
               isbn in inventoryManager.borrowedBooks && inventoryManager.borrowedBooks[isbn] == [] && isbn in books;
      }
    }

    /**
     * `getBorrowedBooks`: the catalogued books somebody holds, one per ISBN, in
     * iteration order `isbns`. With `getAvailableBooks` it splits the catalog's
     * non-empty ISBNs in two.
     */
    method GetBorrowedBooks() returns (borrowed: seq<Book>, ghost isbns: seq<string>)
      requires Valid()
      ensures |borrowed| == |isbns| && NoDuplicates(isbns)
      ensures forall i :: 0 <= i < |isbns| ==> isbns[i] in books && borrowed[i] == books[isbns[i]]
      ensures forall isbn :: isbn in isbns <==> isbn in books && isbn != "" && !inventoryManager.IsBookAvailable(isbn)
    {
      borrowed, isbns := inventoryManager.GetBorrowedBooks(books);
      forall isbn
        ensures isbn in isbns <==> isbn in books && isbn != "" && !inventoryManager.IsBookAvailable(isbn)
      {
        assert isbn in isbns <==> isbn in (set i | i in isbns);
        assert isbn in L.BorrowedIsbns(inventoryManager.State(), books.Keys) <==>
               isbn in inventoryManager.borrowedBooks && inventoryManager.borrowedBooks[isbn] != [] && isbn in books;
      }
    }
  }

  /** The ledgers the scenario below passes through. */
  lemma ScenarioLedgers(isbn: string, patronId: string)
    requires isbn != "" && patronId != ""
    ensures L.Initialize(L.Empty, isbn) == Ok(L.Ledger(map[isbn := []], map[]))
    ensures Lending.Checkout(L.Ledger(map[isbn := []], map[]), true, isbn, patronId) ==
            Ok(L.Step(L.Ledger(map[isbn := [patronId]], map[patronId := [isbn]]), true))
    ensures Lending.Return(L.Ledger(map[isbn := [patronId]], map[patronId := [isbn]]), true, isbn, patronId) ==
            Ok(L.Step(L.Ledger(map[isbn := []], map[patronId := []]), true))
  {
    var l := L.Ledger(map[isbn := []], map[]);
    assert L.IsAvailable(l, isbn);
    var none: seq<string> := [];
    assert none + [patronId] == [patronId] && none + [isbn] == [isbn];
    assert l.borrowers[isbn := none + [patronId]] == map[isbn := [patronId]];
    assert l.loans[patronId := none][patronId := none + [isbn]] == map[patronId := [isbn]];
    assert RemoveFirst([patronId], patronId) == [];
    assert RemoveFirst([isbn], isbn) == [];
    assert map[isbn := [patronId]][isbn := []] == map[isbn := []];
    assert map[patronId := [isbn]][patronId := []] == map[patronId := []];
  }

  /** A new service holding one book, available, and one registered patron. */
  method SetUpScenario(book: Book, patron: Patron) returns (service: LibraryServiceImpl)
    requires book.isbn != "" && patron.patronId != ""
    ensures fresh(service) && fresh(service.inventoryManager) && service.Valid()
    ensures service.books == map[book.isbn := book]
    ensures service.inventoryManager.State() == L.Ledger(map[book.isbn := []], map[])
    ensures service.patronManager.patrons == map[patron.patronId := patron]
  {
    ScenarioLedgers(book.isbn, patron.patronId);
    service := new LibraryServiceImpl();
    var added := service.AddBook(Some(book));
    var registered := service.AddPatron(patron);
  }

  /** In the scenario's set-up, the patron checks the one book out. */
  method CheckoutPhase(service: LibraryServiceImpl, book: Book, patronId: string) returns (checkedOut: Result<bool>, borrowed: seq<Book>)
    requires book.isbn != "" && patronId != "" && service.Valid()
    requires service.books == map[book.isbn := book] && service.patronManager.PatronExists(patronId)
    requires service.inventoryManager.State() == L.Ledger(map[book.isbn := []], map[])
    modifies service.inventoryManager, service.patronManager.patrons.Values
    ensures service.Valid()
    ensures service.inventoryManager.State() == L.Ledger(map[book.isbn := [patronId]], map[patronId := [book.isbn]])
    ensures checkedOut == Ok(true) && borrowed == [book]
  {
    ScenarioLedgers(book.isbn, patronId);
    checkedOut := service.CheckoutBook(book.isbn, patronId);
    borrowed := OnlyBorrowed(service, book, patronId);
  }

  /** With the one book held by the patron, the borrowed list is exactly that book. */
  method OnlyBorrowed(service: LibraryServiceImpl, book: Book, patronId: string) returns (borrowed: seq<Book>)
    requires book.isbn != "" && patronId != "" && service.Valid()
    requires service.books == map[book.isbn := book]
    requires service.inventoryManager.State() == L.Ledger(map[book.isbn := [patronId]], map[patronId := [book.isbn]])
    ensures borrowed == [book]
  {
    ghost var ids;
    borrowed, ids := service.GetBorrowedBooks();
    NoDuplicatesSingleton(ids, book.isbn);
  }

  /** After the checkout phase, the patron returns the book. */
  method ReturnPhase(service: LibraryServiceImpl, book: Book, patronId: string)
    returns (returned: Result<bool>, borrowed: seq<Book>, available: seq<Book>)
    requires book.isbn != "" && patronId != "" && service.Valid()
    requires service.books == map[book.isbn := book] && service.patronManager.PatronExists(patronId)
    requires service.inventoryManager.State() == L.Ledger(map[book.isbn := [patronId]], map[patronId := [book.isbn]])
    modifies service.inventoryManager
    ensures returned == Ok(true) && borrowed == [] && available == [book]
  {
    ScenarioLedgers(book.isbn, patronId);
    returned := service.ReturnBook(book.isbn, patronId);
    ghost var ids;
    borrowed, ids := service.GetBorrowedBooks();
    NoMembersEmpty(ids);
    available, ids := service.GetAvailableBooks();
    NoDuplicatesSingleton(ids, book.isbn);
  }

  /**
   * The service's checkout and return scenario: with one plain book and one
   * registered patron, checking the book out succeeds and makes the borrowed
   * list exactly that book; returning it succeeds, empties the borrowed list
   * and leaves one available book.
   */
  method CheckoutReturnScenario() returns (checkedOut: Result<bool>, borrowedAfterCheckout: seq<Book>,
                                           returned: Result<bool>, borrowedAfterReturn: seq<Book>,
                                           availableAfterReturn: seq<Book>)
    ensures checkedOut == Ok(true) && returned == Ok(true)
    ensures borrowedAfterCheckout == [NewBook("Test Book", "Test Author", "123-456-789", 2023)]
    ensures borrowedAfterReturn == [] && availableAfterReturn == [NewBook("Test Book", "Test Author", "123-456-789", 2023)]
  {
    var book := NewBook("Test Book", "Test Author", "123-456-789", 2023);
    var patron := new Patron("Test Patron", "test@example.com", "123-456-7890", "P001");
    var service := SetUpScenario(book, patron);
    assert service.patronManager.patrons["P001"] == patron;
    assert service.patronManager.patrons.Values == {patron};
    checkedOut, borrowedAfterCheckout := CheckoutPhase(service, book, "P001");
    returned, borrowedAfterReturn, availableAfterReturn := ReturnPhase(service, book, "P001");
  }
}
