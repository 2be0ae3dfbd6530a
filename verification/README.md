# Library management system: a verified model of the circulation core

The library management system keeps an in-memory catalog of books keyed by
ISBN. Next to the catalog it keeps:

- an availability ledger that records who holds which ISBN;
- a registry of patrons keyed by patron id, each with a borrowing history;
- a lending coordinator that guards checkout and return;
- per-ISBN reservation waitlists whose observers are told when a book becomes available;
- a recommendation pass driven by each patron's borrowing history;
- library branches, each with its own catalog, between which a book can be transferred.

This project models that core in Dafny and proves what each operation promises.

Where the Java classes update fields in place, the model uses classes. These are
`InventoryManager`, `PatronManager`, `Patron`, `LendingManager`,
`ReservationSystem`, `LibraryServiceImpl`, `RecommendationSystem` and
`LibraryBranch`. Each method states its whole new state.

For the ledger (module `Ledger`) and the reservation waitlist (module
`Reservations`), each operation is also a function on a value of the state.
The class methods are proved to leave exactly the state those functions
compute. The lemmas about those functions carry the invariants:

- a single holder per ISBN;
- the patron map as the inverse of the ISBN map;
- distinct waitlists;
- checkout undone by return.

`LibraryServiceImpl.Valid` is the service invariant. It says that the ledger
tracks exactly the catalog's non-empty ISBNs, and that the ledger's two maps
mirror each other. Every service method and `LibraryBranch.TransferBook`
preserve it.

Java exceptions become values:

- `Result<T>` (`Ok(value)` or `Err(ex)`) for methods that return something;
- `Outcome` (`Done` or `Thrown(ex)`) for `void` methods;
- `ex` is `IllegalArgument` or `IllegalState`.

A Java `null` object becomes `Option<T>` or a nullable class type. A `null`
ISBN, patron id or search query passed to a guarded operation is folded into
`""`, because every such guard treats the two alike (`s == null ||
s.isEmpty()`). Strings that the code never guards (a book's title and author,
the ISBN a book carries, a patron's own id) are assumed non-null; see "Left out".

Files:

- `errors.dfy`: results and options.
- `collections.dfy`: list helpers (`List.remove`, duplicate-freedom, map values in iteration order).
- `java_hash.dfy`: `String.hashCode` and `Objects.hash` with 32-bit wrap-around.
- `text.dfy`: ASCII `toLowerCase` and `contains`.
- `books.dfy` and `book_factory.dfy`: books and the factory.
- `patrons.dfy` and `patron_manager.dfy`: patrons and the registry.
- `ledger.dfy` and `inventory_manager.dfy`: the availability ledger.
- `lending.dfy`: the lending coordinator.
- `reservations.dfy`: reservation waitlists.
- `library_service.dfy`: the catalog service, plus its checkout/return scenario.
- `recommendations.dfy`: recommendations.
- `library_branch.dfy`: branches and transfer.

Where the code and its documentation disagree, the model follows the code:

- `Book.equals` compares the runtime class as well as the ISBN. A `FictionBook` and a plain `Book` with the same ISBN are therefore not equal. `FactoryBooksEqualIffSameTypeAndIsbn` states this. Within one class, equality is ISBN identity.
- Reservations are not connected to lending. Checkout ignores waitlists, and a return notifies nobody.
- `addBook` with an empty ISBN puts the book into the catalog before the ledger throws. The book then stays catalogued but untracked, which is why `Valid` relates the ledger to the catalog's non-empty ISBNs only.

## Model

| member | source | states |
|---|---|---|
| Books.Book.HashCode | src/main/java/librarymanagementsystem/model/Book.java:73-75 | the hash is a 32-bit `int` (equal books hash alike: `EqualBooksHashAlike`) |
| Books.Book.SetTitle | src/main/java/librarymanagementsystem/model/Book.java:48-50 | only the title changes; the book stays equal to what it was |
| Books.Book.SetAuthor | src/main/java/librarymanagementsystem/model/Book.java:52-54 | only the author changes; the book stays equal to what it was |
| Books.Book.SetIsbn | src/main/java/librarymanagementsystem/model/Book.java:56-58 | only the ISBN changes; the result equals the old book iff the ISBN is the same |
| Books.Book.SetPublicationYear | src/main/java/librarymanagementsystem/model/Book.java:60-62 | only the year changes; the book stays equal to what it was |
| Books.NewBook | src/main/java/librarymanagementsystem/model/Book.java:23-45 | the getters return exactly the constructor arguments; the runtime class is plain `Book` |
| Books.Book.Equals | src/main/java/librarymanagementsystem/model/Book.java:65-70 | equal books have the same ISBN; within one runtime class, books are equal iff their ISBNs are |
| Books.EqualsIsIsbnIdentity | src/main/java/librarymanagementsystem/model/Book.java:65-70 | `equals` is reflexive, symmetric and transitive; within one runtime class, books are equal iff their ISBNs are |
| Books.EqualBooksHashAlike | src/main/java/librarymanagementsystem/model/Book.java:65-75 | equal books have equal hash codes |
| Books.ContainsAppend | src/main/java/librarymanagementsystem/model/Patron.java:74 | `List.contains` on a concatenation holds iff it holds on either part |
| BookFactory.CreateBook | src/main/java/librarymanagementsystem/utils/BookFactory.java:24-35 | every type keeps title, author, ISBN and year; FICTION gives genre "Fiction", NON_FICTION subject "Non-Fiction", REFERENCE reference-only, GENERAL a plain book, each iff that type |
| BookFactory.FactoryBooksEqualIffSameTypeAndIsbn | src/main/java/librarymanagementsystem/utils/BookFactory.java:24-35 | two factory books are equal iff they have the same type and the same ISBN |
| JavaHash.ToInt32 | src/main/java/librarymanagementsystem/model/Book.java:74 | the result is a 32-bit `int` congruent to the input modulo 2^32, and equal to it when the input already fits |
| JavaHash.StringHash | src/main/java/librarymanagementsystem/model/Book.java:74 | `String.hashCode` is a 32-bit `int`, and 0 for the empty string |
| JavaHash.ObjectsHash | src/main/java/librarymanagementsystem/model/Book.java:74 | `Objects.hash` of one string is a 32-bit `int`, and 31 for the empty (or null) string |
| Patrons.AddIfAbsent | src/main/java/librarymanagementsystem/model/Patron.java:73-77 | the history keeps its old entries as a prefix and afterwards contains the book; it grows by one iff no equal book was there; a history without equal pairs stays so |
| Patrons.AddIfAbsentIdempotent | src/main/java/librarymanagementsystem/model/Patron.java:73-77 | adding the same book twice gives the history that adding it once gives |
| Patrons.Patron.constructor | src/main/java/librarymanagementsystem/model/Patron.java:26-32 | a new patron has the given details and an empty borrowing history |
| Patrons.Patron.SetName | src/main/java/librarymanagementsystem/model/Patron.java:56-58 | only the name changes (the id is a constant) |
| Patrons.Patron.SetEmail | src/main/java/librarymanagementsystem/model/Patron.java:60-62 | only the e-mail changes |
| Patrons.Patron.SetPhoneNumber | src/main/java/librarymanagementsystem/model/Patron.java:64-66 | only the phone number changes |
| Patrons.Patron.AddToBorrowingHistory | src/main/java/librarymanagementsystem/model/Patron.java:73-77 | the history becomes `AddIfAbsent` of the old history; the other fields are unchanged |
| Patrons.Patron.HashCode | src/main/java/librarymanagementsystem/model/Patron.java:88-90 | the hash is a 32-bit `int` (equal patrons hash alike: `EqualPatronsHashAlike`) |
| Patrons.Patron.Equals | src/main/java/librarymanagementsystem/model/Patron.java:79-85 | a patron equals a non-null patron iff their ids are equal; equal patrons hash alike |
| Patrons.EqualPatronsHashAlike | src/main/java/librarymanagementsystem/model/Patron.java:80-90 | patrons equal by id have equal hash codes |
| PatronRegistry.PatronManager.constructor | src/main/java/librarymanagementsystem/patron/PatronManager.java:25-28 | the registry starts empty |
| PatronRegistry.PatronManager.AddPatron | src/main/java/librarymanagementsystem/patron/PatronManager.java:36-49 | a null patron or a registered id throws, with the map unchanged; otherwise the patron is stored under its id, after which it exists and is found |
| PatronRegistry.PatronManager.UpdatePatron | src/main/java/librarymanagementsystem/patron/PatronManager.java:58-76 | succeeds iff the id is non-empty, the patron non-null and the id registered; then only that entry is replaced and the key set is kept; otherwise it throws with nothing changed |
| PatronRegistry.PatronManager.FindPatronById | src/main/java/librarymanagementsystem/patron/PatronManager.java:85-92 | throws iff the id is empty; otherwise the stored patron, or null iff the id is not registered |
| PatronRegistry.PatronManager.PatronExists | src/main/java/librarymanagementsystem/patron/PatronManager.java:109-115 | never throws; true iff `findPatronById` would return a patron |
| PatronRegistry.PatronManager.GetAllPatrons | src/main/java/librarymanagementsystem/patron/PatronManager.java:99-101 | exactly one entry per registered id, in the map's iteration order |
| PatronRegistry.PatronManager.AddToBorrowingHistory | src/main/java/librarymanagementsystem/patron/PatronManager.java:124-143 | succeeds iff the id is non-empty, the book non-null and the patron registered; then that patron's history becomes `AddIfAbsent`, its name, e-mail and phone number stay, and no other patron changes; otherwise it throws with no patron changed |
| Collections.RemoveFirst | src/main/java/librarymanagementsystem/inventory/InventoryManager.java:124-127 | `List.remove(Object)`: an absent element leaves the list as it is; a present one makes it one shorter, and exactly one copy of it leaves the multiset |
| Collections.RemoveFirstOfAppended | src/main/java/librarymanagementsystem/inventory/InventoryManager.java:89-127 | removing an element just appended to a list without it gives the list back |
| Collections.RemoveFirstNoDuplicates | src/main/java/librarymanagementsystem/inventory/InventoryManager.java:124-127 | on a list without repeats, removal keeps it so, leaves no copy of the element and keeps every other element |
| Collections.Values | src/main/java/librarymanagementsystem/inventory/InventoryManager.java:167-191 | the map's values, one per key, in an iteration order of the keys |
| Ledger.Initialize | src/main/java/librarymanagementsystem/inventory/InventoryManager.java:36-44 | throws iff the ISBN is empty; otherwise the ISBN is tracked and already-tracked ISBNs keep their holders (`putIfAbsent`) |
| Ledger.Remove | src/main/java/librarymanagementsystem/inventory/InventoryManager.java:51-59 | throws iff the ISBN is empty; otherwise the ISBN is no longer tracked and nothing else changes |
| Ledger.Checkout | src/main/java/librarymanagementsystem/inventory/InventoryManager.java:68-94 | throws iff an id is empty; both keys get entries even on false; true iff nobody held the ISBN, and then the patron is its only holder and the ISBN ends the patron's list; other entries are unchanged |
| Ledger.Return | src/main/java/librarymanagementsystem/inventory/InventoryManager.java:103-129 | throws iff an id is empty; true iff the patron holds the ISBN, and then each is removed from the other's list; false changes nothing |
| Ledger.AvailableCount | src/main/java/librarymanagementsystem/inventory/InventoryManager.java:153-159 | 1 iff the book is available, 0 iff it is not |
| Ledger.IsAvailable | src/main/java/librarymanagementsystem/inventory/InventoryManager.java:137-144 | false for an empty or untracked ISBN; when true, the ISBN is tracked and nobody holds it |
| Ledger.Borrowers | src/main/java/librarymanagementsystem/inventory/InventoryManager.java:199-206 | the ISBN's holders, at most one on a single-holder ledger, none when available |
| Ledger.BorrowedBooksByPatron | src/main/java/librarymanagementsystem/inventory/InventoryManager.java:214-221 | the patron's ISBNs; on a mirrored ledger the patron is the only holder of each |
| Ledger.BorrowedIsbns | src/main/java/librarymanagementsystem/inventory/InventoryManager.java:167-175 | only tracked catalog ISBNs, none of them available |
| Ledger.AvailableIsbns | src/main/java/librarymanagementsystem/inventory/InventoryManager.java:183-191 | disjoint from the borrowed ones, and together they cover exactly the tracked catalog ISBNs |
| Ledger.MirroredIsSingleHolder | src/main/java/librarymanagementsystem/inventory/InventoryManager.java:84-93 | a mirrored ledger has at most one holder per ISBN |
| Ledger.ReturnFreesBook | src/main/java/librarymanagementsystem/inventory/InventoryManager.java:114-128 | with a single holder, a successful return leaves the book with no holder |
| Ledger.OperationsKeepSingleHolder | src/main/java/librarymanagementsystem/inventory/InventoryManager.java:36-129 | initialize, remove, checkout and return keep at most one holder per ISBN |
| Ledger.OperationsKeepMirrored | src/main/java/librarymanagementsystem/inventory/InventoryManager.java:36-129 | checkout, return, initialize, and removal of an unheld ISBN keep the patron map the inverse of the ISBN map |
| Ledger.CheckoutThenReturn | src/test/java/librarymanagementsystem/TestRunner.java:97-112 | checking out an available book and returning it with the same patron succeeds twice and leaves the book available |
| Ledger.CheckoutThenReturnRestores | src/main/java/librarymanagementsystem/inventory/InventoryManager.java:68-129 | on a mirrored ledger where the patron has an entry, checkout then return gives back the very same ledger |
| Ledger.SecondCheckoutFails | src/main/java/librarymanagementsystem/inventory/InventoryManager.java:84-86 | after a successful checkout, any second checkout of the ISBN answers false and changes no holder |
| Ledger.InitializeIdempotent | src/main/java/librarymanagementsystem/inventory/InventoryManager.java:42 | initialising twice is initialising once |
| Ledger.RemoveUndoesInitialize | src/main/java/librarymanagementsystem/inventory/InventoryManager.java:36-59 | removing a just-initialised, previously untracked ISBN gives back the old ledger |
| Inventory.InventoryManager.constructor | src/main/java/librarymanagementsystem/inventory/InventoryManager.java:25-29 | both maps start empty |
| Inventory.InventoryManager.InitializeBookInventory | src/main/java/librarymanagementsystem/inventory/InventoryManager.java:36-44 | the outcome and the new maps are those of `Ledger.Initialize` |
| Inventory.InventoryManager.RemoveBookFromInventory | src/main/java/librarymanagementsystem/inventory/InventoryManager.java:51-59 | the outcome and the new maps are those of `Ledger.Remove` |
| Inventory.InventoryManager.RecordCheckout | src/main/java/librarymanagementsystem/inventory/InventoryManager.java:68-94 | the answer and the new maps are those of `Ledger.Checkout` |
| Inventory.InventoryManager.RecordReturn | src/main/java/librarymanagementsystem/inventory/InventoryManager.java:103-129 | the answer and the new maps are those of `Ledger.Return` |
| Inventory.InventoryManager.IsBookAvailable | src/main/java/librarymanagementsystem/inventory/InventoryManager.java:137-144 | true iff the ISBN is non-empty, tracked, and its `getBorrowers` list is empty; then a checkout by any patron succeeds |
| Inventory.InventoryManager.GetAvailableCount | src/main/java/librarymanagementsystem/inventory/InventoryManager.java:153-159 | 1 iff `isBookAvailable`, 0 otherwise |
| Inventory.InventoryManager.GetBorrowers | src/main/java/librarymanagementsystem/inventory/InventoryManager.java:199-206 | at most one borrower on a single-holder ledger; none for an available book |
| Inventory.InventoryManager.GetBorrowedBooksByPatron | src/main/java/librarymanagementsystem/inventory/InventoryManager.java:214-221 | on a mirrored ledger, every listed ISBN has exactly this patron as its borrower |
| Inventory.InventoryManager.CollectBooks | src/main/java/librarymanagementsystem/inventory/InventoryManager.java:167-191 | the loop over the entries keeps, once each, the catalog book of every tracked ISBN whose holder list is non-empty exactly as asked |
| Inventory.InventoryManager.GetBorrowedBooks | src/main/java/librarymanagementsystem/inventory/InventoryManager.java:167-175 | one catalog book per ISBN, and the ISBNs are exactly `Ledger.BorrowedIsbns` |
| Inventory.InventoryManager.GetAvailableBooks | src/main/java/librarymanagementsystem/inventory/InventoryManager.java:183-191 | one catalog book per ISBN, and the ISBNs are exactly `Ledger.AvailableIsbns`, each available |
| Lending.Checkout | src/main/java/librarymanagementsystem/lending/LendingManager.java:40-77 | throws iff an id is empty; true iff the patron exists and the book is available; false leaves the ledger untouched (an untracked ISBN is never auto-tracked); true leaves the patron the only holder and is exactly the ledger's checkout |
| Lending.Return | src/main/java/librarymanagementsystem/lending/LendingManager.java:87-112 | throws iff an id is empty; an unknown patron gives false with nothing changed; otherwise exactly the ledger's return |
| Lending.CheckoutThenReturnRestoresAvailability | src/test/java/librarymanagementsystem/TestRunner.java:158-166 | a registered patron's checkout then return both succeed and make the book available again |
| Lending.LendingKeepsMirrored | src/main/java/librarymanagementsystem/lending/LendingManager.java:40-112 | checkout and return keep the ledger's two maps mirrored |
| Lending.LendingManager.constructor | src/main/java/librarymanagementsystem/lending/LendingManager.java:26-30 | the coordinator works on exactly the given inventory and registry |
| Lending.LendingManager.CheckoutBook | src/main/java/librarymanagementsystem/lending/LendingManager.java:40-77 | the answer and the new ledger are those of `Lending.Checkout`; only the inventory may change, so no borrowing history does |
| Lending.LendingManager.ReturnBook | src/main/java/librarymanagementsystem/lending/LendingManager.java:87-112 | the answer and the new ledger are those of `Lending.Return` |
| Reservations.Reserve | src/main/java/librarymanagementsystem/reservation/ReservationSystem.java:38-68 | throws iff the ISBN is empty or the patron null; true iff no patron with that id waits; then the patron and one observer join the tails; false changes nothing; other ISBNs untouched |
| Reservations.HasReservation | src/main/java/librarymanagementsystem/reservation/ReservationSystem.java:54 | the waitlist's `contains(patron)`: true iff some waiting patron has the same id |
| Reservations.Deliveries | src/main/java/librarymanagementsystem/reservation/ReservationSystem.java:88-91 | one notice per observer, in order, each with the availability message |
| Reservations.Sent | src/main/java/librarymanagementsystem/reservation/ReservationSystem.java:75-97 | no notice for an empty ISBN; otherwise one per observer of the ISBN |
| Reservations.Notify | src/main/java/librarymanagementsystem/reservation/ReservationSystem.java:75-97 | throws iff the ISBN is empty; no observers leaves everything as it was; otherwise the ISBN leaves both maps and other ISBNs keep theirs |
| Reservations.Count | src/main/java/librarymanagementsystem/reservation/ReservationSystem.java:120-127 | 0 for an empty ISBN, otherwise the waitlist length; positive iff the book is reserved |
| Reservations.IsReserved | src/main/java/librarymanagementsystem/reservation/ReservationSystem.java:105-112 | false for an empty or absent ISBN; when true, the ISBN has a non-empty waitlist |
| Reservations.OperationsKeepWellFormed | src/main/java/librarymanagementsystem/reservation/ReservationSystem.java:38-97 | reserving and notifying keep both maps on the same ISBNs, observers aligned with waiters and no patron waiting twice |
| Reservations.ReserveCounts | src/main/java/librarymanagementsystem/reservation/ReservationSystem.java:54-67 | a successful reservation raises the count by one, a refused one leaves it; either way the book is reserved afterwards |
| Reservations.NotifyFansOut | src/main/java/librarymanagementsystem/reservation/ReservationSystem.java:88-94 | every waiting patron gets the message once, in reservation order, and afterwards the count is 0 and the book is not reserved |
| Reservations.ReservationSystem.constructor | src/main/java/librarymanagementsystem/reservation/ReservationSystem.java:26-29 | both maps start empty and nothing has been delivered |
| Reservations.ReservationSystem.ReserveBook | src/main/java/librarymanagementsystem/reservation/ReservationSystem.java:38-68 | the answer and the new maps are those of `Reserve`; nobody is notified; the waitlist stays well formed |
| Reservations.ReservationSystem.NotifyBookAvailable | src/main/java/librarymanagementsystem/reservation/ReservationSystem.java:75-97 | the new maps are those of `Notify`, and the delivered trace grows by exactly `Sent` |
| Reservations.ReservationSystem.IsBookReserved | src/main/java/librarymanagementsystem/reservation/ReservationSystem.java:105-112 | true iff the reservation count is positive, and only for a non-empty ISBN with a waitlist entry |
| Reservations.ReservationSystem.GetReservationCount | src/main/java/librarymanagementsystem/reservation/ReservationSystem.java:105-127 | positive iff `isBookReserved` |
| Text.LowerChar | src/main/java/librarymanagementsystem/services/impl/LibraryServiceImpl.java:124 | an upper-case ASCII letter becomes its lower-case letter; any other character is kept |
| Text.ToLower | src/main/java/librarymanagementsystem/services/impl/LibraryServiceImpl.java:125 | `toLowerCase` keeps the length, leaves no upper-case ASCII letter, and keeps every other character |
| Text.IsSubstring | src/main/java/librarymanagementsystem/services/impl/LibraryServiceImpl.java:125 | `contains`: only a string no longer than the other can occur in it, and a string contains every prefix of itself |
| Text.ContainsIgnoreCase | src/main/java/librarymanagementsystem/services/impl/LibraryServiceImpl.java:125-137 | the search filter: a matching query is no longer than the field, and the empty query matches every field |
| Text.ToLowerIdempotent | src/main/java/librarymanagementsystem/services/impl/LibraryServiceImpl.java:124 | lowering twice is lowering once |
| Text.ToLowerSlice | src/main/java/librarymanagementsystem/services/impl/LibraryServiceImpl.java:124 | lowering commutes with taking a slice |
| Text.SubstringTransitive | src/main/java/librarymanagementsystem/services/impl/LibraryServiceImpl.java:124 | `contains` is transitive |
| Text.SubstringReflexive | src/main/java/librarymanagementsystem/services/impl/LibraryServiceImpl.java:124 | every string contains itself |
| Text.SubstringLower | src/main/java/librarymanagementsystem/services/impl/LibraryServiceImpl.java:124 | an occurrence survives lowering both strings |
| Text.ContainsIgnoreCaseProperties | src/main/java/librarymanagementsystem/services/impl/LibraryServiceImpl.java:118-139 | the case-insensitive match ignores the query's case, matches a string to itself, and narrows as the query grows |
| Service.Matching | src/main/java/librarymanagementsystem/services/impl/LibraryServiceImpl.java:118-139 | throws iff the query is empty; otherwise exactly the catalog entries whose field contains the query ignoring case, with their catalog values |
| Service.MatchingIgnoresQueryCase | src/main/java/librarymanagementsystem/services/impl/LibraryServiceImpl.java:118-139 | a query and its lower-cased form find the same books |
| Service.MatchingFindsExactField | src/test/java/librarymanagementsystem/LibraryServiceTest.java:118-134 | every book whose field equals the query is found |
| Service.MatchingNarrows | src/main/java/librarymanagementsystem/services/impl/LibraryServiceImpl.java:118-139 | a query finds no more books than any non-empty piece of it |
| Service.LibraryServiceImpl.constructor | src/main/java/librarymanagementsystem/services/impl/LibraryServiceImpl.java:36-42 | an empty catalog, ledger and registry, wired together, satisfying the invariant |
| Service.LibraryServiceImpl.AddBook | src/main/java/librarymanagementsystem/services/impl/LibraryServiceImpl.java:47-61 | a null book or catalogued ISBN throws with nothing changed; otherwise catalogued and tracked as available; an empty ISBN stays catalogued while the call throws; the invariant is kept |
| Service.LibraryServiceImpl.RemoveBook | src/main/java/librarymanagementsystem/services/impl/LibraryServiceImpl.java:64-84 | an empty or uncatalogued ISBN throws IllegalArgument, a held book IllegalState, each with nothing changed; otherwise the ISBN leaves catalog and ledger |
| Service.LibraryServiceImpl.UpdateBook | src/main/java/librarymanagementsystem/services/impl/LibraryServiceImpl.java:87-105 | succeeds iff the ISBN is non-empty and catalogued and the book non-null; then only the catalog value is replaced and the ledger is untouched |
| Service.LibraryServiceImpl.FindBookByIsbn | src/main/java/librarymanagementsystem/services/impl/LibraryServiceImpl.java:108-115 | throws iff the ISBN is empty; otherwise the catalogued book, or null iff none |
| Service.LibraryServiceImpl.FindBooksByTitle | src/main/java/librarymanagementsystem/services/impl/LibraryServiceImpl.java:118-127 | the title search of `Matching`; every book with exactly that title is found |
| Service.LibraryServiceImpl.FindBooksByAuthor | src/main/java/librarymanagementsystem/services/impl/LibraryServiceImpl.java:130-139 | the author search of `Matching`; every book with exactly that author is found |
| Service.LibraryServiceImpl.GetAllBooks | src/main/java/librarymanagementsystem/services/impl/LibraryServiceImpl.java:142-144 | one entry per catalogued ISBN, in iteration order |
| Service.LibraryServiceImpl.CheckoutBook | src/main/java/librarymanagementsystem/services/impl/LibraryServiceImpl.java:171-184 | a catalogued book goes into a registered patron's history first (name, e-mail and phone number kept, no other patron changed), even when lending then answers false; the answer and the ledger are those of `Lending.Checkout`; the invariant is kept |
| Service.LibraryServiceImpl.ReturnBook | src/main/java/librarymanagementsystem/services/impl/LibraryServiceImpl.java:187-189 | the answer and the ledger are those of `Lending.Return`; the invariant is kept |
| Service.LibraryServiceImpl.AddPatron | src/main/java/librarymanagementsystem/services/impl/LibraryServiceImpl.java:149-151 | the registry's `addPatron`; catalog and ledger untouched |
| Service.LibraryServiceImpl.UpdatePatron | src/main/java/librarymanagementsystem/services/impl/LibraryServiceImpl.java:154-156 | the registry's `updatePatron`; catalog and ledger untouched |
| Service.LibraryServiceImpl.GetAvailableBookCount | src/main/java/librarymanagementsystem/services/impl/LibraryServiceImpl.java:194-206 | throws iff the ISBN is empty; otherwise 0 or 1, and 1 iff catalogued and available |
| Service.LibraryServiceImpl.GetAvailableBooks | src/main/java/librarymanagementsystem/services/impl/LibraryServiceImpl.java:209-211 | one catalog book per ISBN, exactly the catalogued available ones |
| Service.LibraryServiceImpl.GetBorrowedBooks | src/main/java/librarymanagementsystem/services/impl/LibraryServiceImpl.java:214-216 | one catalog book per ISBN, exactly the catalogued non-empty ISBNs not available; with the available ones they split the catalog |
| Service.CheckoutReturnScenario | src/test/java/librarymanagementsystem/LibraryServiceTest.java:84-115 | with one book and one patron, checkout succeeds and the borrowed list is exactly that book; return succeeds, the borrowed list is empty and the available list is that book |
| Service.ScenarioLedgers | src/test/java/librarymanagementsystem/LibraryServiceTest.java:84-107 | the ledgers the checkout and return tests pass through: the book tracked and free, then held by the patron alone, then free again with the patron holding nothing |
| Service.SetUpScenario | src/test/java/librarymanagementsystem/LibraryServiceTest.java:22-27 | the tests' set-up after adding the book and the patron (:86-87): a fresh valid service whose catalog is that one book, available, and whose registry is that one patron |
| Service.CheckoutPhase | src/test/java/librarymanagementsystem/LibraryServiceTest.java:89-96 | the checkout succeeds, the patron holds the book, and the borrowed list is exactly that book |
| Service.OnlyBorrowed | src/test/java/librarymanagementsystem/LibraryServiceTest.java:94-96 | with the one book held, `getBorrowedBooks` returns exactly that book |
| Service.ReturnPhase | src/test/java/librarymanagementsystem/LibraryServiceTest.java:106-114 | the return succeeds, the borrowed list is empty and the available list is exactly the book |
| Recommendations.AppendNew | src/main/java/librarymanagementsystem/recommendations/RecommendationSystem.java:44-52 | the old preference list stays a prefix |
| Recommendations.PrefsOf | src/main/java/librarymanagementsystem/recommendations/RecommendationSystem.java:72-73 | `getOrDefault`: the patron's stored list, or an empty list when the patron has none |
| Recommendations.AppendNewContents | src/main/java/librarymanagementsystem/recommendations/RecommendationSystem.java:44-52 | the list holds exactly the old entries and the history's, and a list without repeats stays so |
| Recommendations.AppendNewIdempotent | src/main/java/librarymanagementsystem/recommendations/RecommendationSystem.java:44-52 | feeding the same history twice records what feeding it once records |
| Recommendations.AppendNewOfPresent | src/main/java/librarymanagementsystem/recommendations/RecommendationSystem.java:44-52 | entries already present add nothing |
| Recommendations.ByAuthor | src/main/java/librarymanagementsystem/recommendations/RecommendationSystem.java:80-83 | exactly the books of the catalog list by that author whose ISBN the patron has not borrowed |
| Recommendations.RecommendationSystem.constructor | src/main/java/librarymanagementsystem/recommendations/RecommendationSystem.java:21-24 | both preference maps start empty |
| Recommendations.RecommendationSystem.UpdatePreferences | src/main/java/librarymanagementsystem/recommendations/RecommendationSystem.java:31-53 | a null patron changes nothing; otherwise only the patron's two lists change, to `AppendNew` of the history's authors and ISBNs; lists stay without repeats |
| Recommendations.RecommendationSystem.GenerateRecommendations | src/main/java/librarymanagementsystem/recommendations/RecommendationSystem.java:63-108 | empty for a null patron or service or max ≤ 0; otherwise at most max books from the catalog, none borrowed, no two equal, preferred authors first; a book by another author is listed only when every unborrowed book by a preferred author is; every unborrowed book when below max |
| Recommendations.RecommendPreferred | src/main/java/librarymanagementsystem/recommendations/RecommendationSystem.java:79-90 | at most max distinct books by preferred authors, none borrowed; unless max is reached, every such book is listed |
| Recommendations.AddAbsent | src/main/java/librarymanagementsystem/recommendations/RecommendationSystem.java:85-89 | what was listed stays, only candidates are added, no two equal, at most max; unless max is reached every candidate is listed |
| Recommendations.RecommendRemaining | src/main/java/librarymanagementsystem/recommendations/RecommendationSystem.java:93-105 | every book of the first phase stays listed; at most max distinct unborrowed books, preferred authors first; unless max is reached every unborrowed book is listed |
| Recommendations.AddOther | src/main/java/librarymanagementsystem/recommendations/RecommendationSystem.java:101-103 | one step of the fill-up loop: an unborrowed book ends up listed, what was listed stays, no two entries are equal, and preferred authors stay first |
| Recommendations.AppendOtherKeepsAuthorsFirst | src/main/java/librarymanagementsystem/recommendations/RecommendationSystem.java:96-104 | a book by another author appended at the end keeps preferred authors first |
| Recommendations.StoreKeepsListsDistinct | src/main/java/librarymanagementsystem/recommendations/RecommendationSystem.java:40-52 | storing an updated list keeps every preference list without repeats |
| Recommendations.ContainsSnoc | src/main/java/librarymanagementsystem/recommendations/RecommendationSystem.java:86-87 | appending keeps what was contained, contains the new book, and keeps the list free of equal pairs when the book was absent |
| Branches.LibraryBranch.constructor | src/main/java/librarymanagementsystem/branches/LibraryBranch.java:20-25 | a branch with the given details and a fresh, empty, valid service |
| Branches.LibraryBranch.TransferBook | src/main/java/librarymanagementsystem/branches/LibraryBranch.java:51-80 | throws iff the book's ISBN is empty; true iff the ISBN is catalogued here, absent from the target and available here; on anything but true both services are unchanged (including after the rollback); on true the ISBN moves from this catalog and ledger to the target's, available |
| Branches.LibraryBranch.HashCode | src/main/java/librarymanagementsystem/branches/LibraryBranch.java:91-93 | the hash is a 32-bit `int` (equal branches hash alike: `EqualBranchesHashAlike`) |
| Branches.MovingKeepsTotal | src/main/java/librarymanagementsystem/branches/LibraryBranch.java:64-72 | a transfer keeps the number of books the two catalogs hold together |
| Branches.LibraryBranch.Equals | src/main/java/librarymanagementsystem/branches/LibraryBranch.java:82-88 | a branch equals a non-null branch iff their branch ids are equal; equal branches hash alike |
| Branches.EqualBranchesHashAlike | src/main/java/librarymanagementsystem/branches/LibraryBranch.java:83-93 | branches equal by id have equal hash codes |

## Left out

- Logging (`java.util.logging`) and console printing: they do not affect state.
- All `toString` methods, and the subclasses' string formatting.
- The getters of `Book`, `Patron` and `LibraryBranch`: they are plain field reads of the model's fields.
- `Book` is a value, not a shared object. A setter returns the changed book instead of changing it in place, so a book changed after it was put into a catalog or history (aliasing) is not modelled.
- `FictionBook`, `NonFictionBook` and `ReferenceBook` are folded into a kind tag on `Book`. Nothing enforces "reference books cannot be borrowed", so it is not modelled.
- `Patron.getBorrowingHistory` returns a copy. The model reads the history field directly, and nothing in the model can change a copy.
- `NotificationObserver` and `PatronNotificationObserver`: a delivery is recorded as a `Notice` in a ghost trace; its logging and printing are not modelled.
- `LibraryService` is an interface; its contract is that of `LibraryServiceImpl`.
- `LibraryServiceImpl.findPatronById` and `getAllPatrons`: they only forward to the registry, whose own members model them.
- The demo program and `BookTest` are not modelled. The checkout and return test of `LibraryServiceTest` is modelled as a scenario. The inventory and lending round trips of `TestRunner` are stated for all inputs (`Ledger.CheckoutThenReturn`, `Lending.CheckoutThenReturnRestoresAvailability`), and its other checks are covered by the operations' contracts.
- `LendingManager.checkoutBook` builds a `Book` that it never uses; it is left out.
- `String.toLowerCase` is modelled on the ASCII letters only, assuming a default locale without special ASCII casing (under a Turkish locale, for example, 'I' lowers to a dotless i). Unicode case mapping is not modelled.
- `String.hashCode` works on UTF-16 code units. The model hashes Dafny characters, which agree for characters of the Basic Multilingual Plane.
- HashMap iteration order is not modelled. Lists built from a map come with a ghost sequence of the keys in some order, and the contracts hold for every order. The title and author searches (`findBooksByTitle`, `findBooksByAuthor`) return the matching catalog entries as a map rather than a list, which loses only their order.
- Recommendations.RecommendationSystem.GenerateRecommendations: takes the list that the service's `getAllBooks` returns (`None` for a null service), not the service itself.
- Branches.LibraryBranch.TransferBook: requires the two branches either to share one service or to keep their services and inventories apart. Branches built by the constructor always satisfy this, since each constructs its own service and inventory.
- Reservations are not coupled to lending (the code does not couple them), and there is no cancel operation.
- Concurrency: the code is single-threaded and so is the model.
- A book's title, author and ISBN, and the factory's type tag, are assumed non-null. The `NullPointerException`s they would cause are not modelled: a null title or author in `findBooksByTitle`/`findBooksByAuthor`, a null author in `generateRecommendations`, and a null type in `createBook`. The model also treats a null author in a history as the empty string, which Java's `equals` would not match.
- A null ISBN and an empty ISBN are distinct keys of the Java catalog map. The model merges them into `""`.
- A patron's own id is assumed non-null. Java's `addPatron` uses it unchecked as a registry key and `Patron.equals` compares it with `Objects.equals`, so a null id and an empty id are distinct registry keys, unequal patrons and two separate waiters in `reserveBook`. The model merges both into `""`: registering the second throws, the two patrons are equal, and the second reservation is refused.
