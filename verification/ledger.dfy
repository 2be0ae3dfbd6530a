/**
 * The state of the availability ledger (`InventoryManager`) as a value, and
 * each of its operations as a function on that value. The class in module
 * Inventory is proved to follow these functions; the lemmas here state what
 * the operations promise together: a single holder per ISBN, the patron map
 * as the inverse of the ISBN map, and checkout undone by return.
 */
module Ledger {
  import opened Errors
  import opened Collections

  /**
   * `borrowers`: ISBN -> ids of the patrons holding it (the code's
   * `borrowedBooks`); a key is a tracked ISBN. `loans`: patron id -> ISBNs
   * that patron holds (the code's `patronBorrowedBooks`).
   */
  datatype Ledger = Ledger(borrowers: map<string, seq<string>>, loans: map<string, seq<string>>)

  /** What `recordCheckout` / `recordReturn` leave behind: the new ledger and the boolean returned. */
  datatype Step = Step(ledger: Ledger, ok: bool)

  const Empty: Ledger := Ledger(map[], map[])

  /** At most one patron holds each ISBN. */
  ghost predicate SingleHolder(l: Ledger) {
    forall isbn :: isbn in l.borrowers ==> |l.borrowers[isbn]| <= 1
  }

  /**
   * The patron map is exactly the inverse of the ISBN map: a patron's list
   * names each ISBN once, and lists an ISBN exactly when that patron is its holder.
   */
  ghost predicate Mirrored(l: Ledger) {
    && (forall p :: p in l.loans ==> NoDuplicates(l.loans[p]))
    && (forall p, isbn :: p in l.loans && isbn in l.loans[p] ==> isbn in l.borrowers && l.borrowers[isbn] == [p])
    && (forall isbn :: isbn in l.borrowers && l.borrowers[isbn] != [] ==>
          l.borrowers[isbn][0] in l.loans && isbn in l.loans[l.borrowers[isbn][0]])
  }

  lemma MirroredIsSingleHolder(l: Ledger)
    requires Mirrored(l)
    ensures SingleHolder(l)
  {
    forall isbn | isbn in l.borrowers
      ensures |l.borrowers[isbn]| <= 1
    {
      if l.borrowers[isbn] != [] {
        var p := l.borrowers[isbn][0];
        assert isbn in l.loans[p];
      }
    }
  }

  /** The ISBN's holders, or none when it is not tracked. */
  function HoldersOf(l: Ledger, isbn: string): seq<string> {
    if isbn in l.borrowers then l.borrowers[isbn] else []
  }

  /** The patron's ISBNs, or none when the patron has no entry. */
  function LoansOf(l: Ledger, patronId: string): seq<string> {
    if patronId in l.loans then l.loans[patronId] else []
  }

  /**
   * `initializeBookInventory`: an empty ISBN is rejected; otherwise the ISBN is
   * tracked afterwards, and an ISBN already tracked keeps its holders
   * (`putIfAbsent`), so re-initialising a borrowed book leaves it borrowed.
   */
  function Initialize(l: Ledger, isbn: string): (r: Result<Ledger>)
    ensures r.Err? <==> isbn == ""
    ensures r.Err? ==> r.ex == IllegalArgument
    ensures r.Ok? ==> r.value.borrowers.Keys == l.borrowers.Keys + {isbn} && r.value.loans == l.loans
    ensures r.Ok? ==> forall i :: i in l.borrowers ==> r.value.borrowers[i] == l.borrowers[i]
    ensures r.Ok? && isbn !in l.borrowers ==> r.value.borrowers[isbn] == []
  {
    if isbn == "" then Err(IllegalArgument)
    else if isbn in l.borrowers then Ok(l)
    else Ok(l.(borrowers := l.borrowers[isbn := []]))
  }

  /** `removeBookFromInventory`: an empty ISBN is rejected; otherwise the ISBN is no longer tracked, whoever held it. */
  function Remove(l: Ledger, isbn: string): (r: Result<Ledger>)
    ensures r.Err? <==> isbn == ""
    ensures r.Err? ==> r.ex == IllegalArgument
    ensures r.Ok? ==> r.value.borrowers.Keys == l.borrowers.Keys - {isbn} && r.value.loans == l.loans
    ensures r.Ok? ==> forall i :: i in r.value.borrowers ==> r.value.borrowers[i] == l.borrowers[i]
  {
    if isbn == "" then Err(IllegalArgument)
    else Ok(l.(borrowers := l.borrowers - {isbn}))
  }

  /**
   * `recordCheckout`: empty ids are rejected. Otherwise the ISBN and the
   * patron both get entries (even when the answer is false); the answer is
   * true exactly when nobody held the ISBN, and then the patron becomes its
   * only holder and the ISBN is appended to the patron's list. Every other
   * ISBN and patron is left alone.
   */
  function Checkout(l: Ledger, isbn: string, patronId: string): (r: Result<Step>)
    ensures r.Err? <==> isbn == "" || patronId == ""
    ensures r.Err? ==> r.ex == IllegalArgument
    ensures r.Ok? ==> (r.value.ok <==> HoldersOf(l, isbn) == [])
    ensures r.Ok? ==> r.value.ledger.borrowers.Keys == l.borrowers.Keys + {isbn}
    ensures r.Ok? ==> r.value.ledger.loans.Keys == l.loans.Keys + {patronId}
    ensures r.Ok? && r.value.ok ==> r.value.ledger.borrowers[isbn] == [patronId]
    ensures r.Ok? && r.value.ok ==> r.value.ledger.loans[patronId] == LoansOf(l, patronId) + [isbn]
    ensures r.Ok? && !r.value.ok ==> r.value.ledger.borrowers == l.borrowers && LoansOf(r.value.ledger, patronId) == LoansOf(l, patronId)
    ensures r.Ok? ==> forall i :: i in l.borrowers && i != isbn ==> r.value.ledger.borrowers[i] == l.borrowers[i]
    ensures r.Ok? ==> forall p :: p in l.loans && p != patronId ==> r.value.ledger.loans[p] == l.loans[p]
  {
    if isbn == "" || patronId == "" then Err(IllegalArgument)
    else
      var borrowers := if isbn in l.borrowers then l.borrowers else l.borrowers[isbn := []];
      var loans := if patronId in l.loans then l.loans else l.loans[patronId := []];
      if borrowers[isbn] != [] then Ok(Step(Ledger(borrowers, loans), false))
      else Ok(Step(Ledger(borrowers[isbn := borrowers[isbn] + [patronId]], loans[patronId := loans[patronId] + [isbn]]), true))
  }

  /**
   * `recordReturn`: empty ids are rejected. The answer is true exactly when
   * the patron is among the ISBN's holders; only then is the patron removed
   * from the ISBN's list and the ISBN from the patron's list (first
   * occurrence, as `List.remove` does). On false nothing changes.
   */
  function Return(l: Ledger, isbn: string, patronId: string): (r: Result<Step>)
    ensures r.Err? <==> isbn == "" || patronId == ""
    ensures r.Err? ==> r.ex == IllegalArgument
    ensures r.Ok? ==> (r.value.ok <==> patronId in HoldersOf(l, isbn))
    ensures r.Ok? && !r.value.ok ==> r.value.ledger == l
    ensures r.Ok? && r.value.ok ==> r.value.ledger.borrowers == l.borrowers[isbn := RemoveFirst(l.borrowers[isbn], patronId)]
    ensures r.Ok? && r.value.ok ==> r.value.ledger.loans.Keys == l.loans.Keys
    ensures r.Ok? && r.value.ok ==> LoansOf(r.value.ledger, patronId) == RemoveFirst(LoansOf(l, patronId), isbn)
    ensures r.Ok? ==> forall p :: p in l.loans && p != patronId ==> r.value.ledger.loans[p] == l.loans[p]
  {
    if isbn == "" || patronId == "" then Err(IllegalArgument)
    else if isbn !in l.borrowers || patronId !in l.borrowers[isbn] then Ok(Step(l, false))
    else
      var borrowers := l.borrowers[isbn := RemoveFirst(l.borrowers[isbn], patronId)];
      var loans := if patronId in l.loans then l.loans[patronId := RemoveFirst(l.loans[patronId], isbn)] else l.loans;
      Ok(Step(Ledger(borrowers, loans), true))
  }

  /** `isBookAvailable`: a non-empty, tracked ISBN that nobody holds. */
  function IsAvailable(l: Ledger, isbn: string): (available: bool)
    ensures available ==> isbn != "" && isbn in l.borrowers && forall p :: p !in l.borrowers[isbn]
    ensures isbn == "" || isbn !in l.borrowers ==> !available
  {
    isbn != "" && isbn in l.borrowers && l.borrowers[isbn] == []
  }

  /** `getAvailableCount`: 1 exactly when the book is available, 0 otherwise. */
  function AvailableCount(l: Ledger, isbn: string): (n: int)
    ensures n == 1 <==> IsAvailable(l, isbn)
    ensures n == 0 <==> !IsAvailable(l, isbn)
  {
    if isbn == "" then 0 else if IsAvailable(l, isbn) then 1 else 0
  }

  /** `getBorrowers`: a copy of the ISBN's holders; empty for an empty or untracked ISBN. */
  function Borrowers(l: Ledger, isbn: string): (r: seq<string>)
    ensures isbn == "" ==> r == []
    ensures isbn != "" ==> r == HoldersOf(l, isbn)
    ensures SingleHolder(l) ==> |r| <= 1
    ensures IsAvailable(l, isbn) ==> r == []
  {
    if isbn == "" then [] else HoldersOf(l, isbn)
  }

  /** `getBorrowedBooksByPatron`: a copy of the patron's ISBNs; empty for an empty or unknown id. */
  function BorrowedBooksByPatron(l: Ledger, patronId: string): (r: seq<string>)
    ensures patronId == "" ==> r == []
    ensures patronId != "" ==> r == LoansOf(l, patronId)
    ensures Mirrored(l) ==> forall isbn :: isbn in r ==> HoldersOf(l, isbn) == [patronId]
  {
    if patronId == "" then [] else LoansOf(l, patronId)
  }

  /** The catalog ISBNs `getBorrowedBooks` reports: tracked, held by someone, and in the catalog. */
  function BorrowedIsbns(l: Ledger, catalog: set<string>): (r: set<string>)
    ensures r <= l.borrowers.Keys * catalog
    ensures forall isbn :: isbn in r ==> !IsAvailable(l, isbn)
  {
    set isbn | isbn in l.borrowers && l.borrowers[isbn] != [] && isbn in catalog
  }

  /**
   * The catalog ISBNs `getAvailableBooks` reports. Together with the borrowed
   * ones they split the tracked catalog ISBNs in two.
   */
  function AvailableIsbns(l: Ledger, catalog: set<string>): (r: set<string>)
    ensures r !! BorrowedIsbns(l, catalog)
    ensures r + BorrowedIsbns(l, catalog) == l.borrowers.Keys * catalog
  {
    set isbn | isbn in l.borrowers && l.borrowers[isbn] == [] && isbn in catalog
  }

  /** With a single holder per ISBN, a successful return leaves the book with no holder. */
  lemma ReturnFreesBook(l: Ledger, isbn: string, patronId: string)
    requires SingleHolder(l)
    requires Return(l, isbn, patronId).Ok? && Return(l, isbn, patronId).value.ok
    ensures HoldersOf(Return(l, isbn, patronId).value.ledger, isbn) == []
  {
    assert l.borrowers[isbn] == [patronId];
    assert RemoveFirst([patronId], patronId) == [];
  }

  /** Every operation keeps at most one holder per ISBN. */
  lemma OperationsKeepSingleHolder(l: Ledger, isbn: string, patronId: string)
    requires SingleHolder(l)
    ensures Initialize(l, isbn).Ok? ==> SingleHolder(Initialize(l, isbn).value)
    ensures Remove(l, isbn).Ok? ==> SingleHolder(Remove(l, isbn).value)
    ensures Checkout(l, isbn, patronId).Ok? ==> SingleHolder(Checkout(l, isbn, patronId).value.ledger)
    ensures Return(l, isbn, patronId).Ok? ==> SingleHolder(Return(l, isbn, patronId).value.ledger)
  {
    if Checkout(l, isbn, patronId).Ok? {
      CheckoutKeepsSingleHolder(l, isbn, patronId);
    }
    if Return(l, isbn, patronId).Ok? {
      ReturnKeepsSingleHolder(l, isbn, patronId);
    }
  }

  lemma CheckoutKeepsSingleHolder(l: Ledger, isbn: string, patronId: string)
    requires SingleHolder(l) && isbn != "" && patronId != ""
    ensures SingleHolder(Checkout(l, isbn, patronId).value.ledger)
  {
    var r := Checkout(l, isbn, patronId).value.ledger;
    forall i | i in r.borrowers
      ensures |r.borrowers[i]| <= 1
    {
      if i != isbn {
        assert r.borrowers[i] == l.borrowers[i];
      }
    }
  }

  lemma ReturnKeepsSingleHolder(l: Ledger, isbn: string, patronId: string)
    requires SingleHolder(l) && isbn != "" && patronId != ""
    ensures SingleHolder(Return(l, isbn, patronId).value.ledger)
  {
    var s := Return(l, isbn, patronId).value;
    if s.ok {
      assert |RemoveFirst(l.borrowers[isbn], patronId)| < |l.borrowers[isbn]|;
    }
  }

  /**
   * Checkout and return keep the patron map the inverse of the ISBN map, and
   * so do initialising and removing an ISBN nobody holds.
   */
  lemma OperationsKeepMirrored(l: Ledger, isbn: string, patronId: string)
    requires Mirrored(l)
    ensures Initialize(l, isbn).Ok? ==> Mirrored(Initialize(l, isbn).value)
    ensures Remove(l, isbn).Ok? && HoldersOf(l, isbn) == [] ==> Mirrored(Remove(l, isbn).value)
    ensures Checkout(l, isbn, patronId).Ok? ==> Mirrored(Checkout(l, isbn, patronId).value.ledger)
    ensures Return(l, isbn, patronId).Ok? ==> Mirrored(Return(l, isbn, patronId).value.ledger)
  {
    if Initialize(l, isbn).Ok? {
      InitializeKeepsMirrored(l, isbn);
    }
    if Remove(l, isbn).Ok? && HoldersOf(l, isbn) == [] {
      RemoveKeepsMirrored(l, isbn);
    }
    if Checkout(l, isbn, patronId).Ok? {
      CheckoutKeepsMirrored(l, isbn, patronId);
    }
    if Return(l, isbn, patronId).Ok? {
      ReturnKeepsMirrored(l, isbn, patronId);
    }
  }

  lemma InitializeKeepsMirrored(l: Ledger, isbn: string)
    requires Mirrored(l) && isbn != ""
    ensures Mirrored(Initialize(l, isbn).value)
  {
    var r := Initialize(l, isbn).value;
    forall p, i | p in r.loans && i in r.loans[p]
      ensures i in r.borrowers && r.borrowers[i] == [p]
    {
      assert l.borrowers[i] == [p];
    }
  }

  lemma RemoveKeepsMirrored(l: Ledger, isbn: string)
    requires Mirrored(l) && isbn != "" && HoldersOf(l, isbn) == []
    ensures Mirrored(Remove(l, isbn).value)
  {
    var r := Remove(l, isbn).value;
    forall p, i | p in r.loans && i in r.loans[p]
      ensures i in r.borrowers && r.borrowers[i] == [p]
    {
      assert l.borrowers[i] == [p];
    }
  }

  lemma CheckoutKeepsMirrored(l: Ledger, isbn: string, patronId: string)
    requires Mirrored(l) && isbn != "" && patronId != ""
    ensures Mirrored(Checkout(l, isbn, patronId).value.ledger)
  {
    var s := Checkout(l, isbn, patronId).value;
    var held := LoansOf(l, patronId);
    if s.ok {
      assert s.ledger == Ledger(l.borrowers[isbn := [patronId]], l.loans[patronId := held + [isbn]]);
      ClaimKeepsMirrored(l, isbn, patronId, held);
    } else {
      assert s.ledger == Ledger(l.borrowers, l.loans[patronId := held]);
      EntryKeepsMirrored(l, patronId);
    }
  }

  /** Giving a patron its (possibly empty) entry keeps the ledger mirrored. */
  lemma EntryKeepsMirrored(l: Ledger, patronId: string)
    requires Mirrored(l)
    ensures Mirrored(Ledger(l.borrowers, l.loans[patronId := LoansOf(l, patronId)]))
  {
    var r := Ledger(l.borrowers, l.loans[patronId := LoansOf(l, patronId)]);
    forall p | p in r.loans
      ensures r.loans[p] == LoansOf(l, p)
    {
    }
  }

  /** A patron claiming an ISBN nobody holds keeps the ledger mirrored. */
  lemma ClaimKeepsMirrored(l: Ledger, isbn: string, patronId: string, held: seq<string>)
    requires Mirrored(l) && HoldersOf(l, isbn) == [] && held == LoansOf(l, patronId)
    ensures Mirrored(Ledger(l.borrowers[isbn := [patronId]], l.loans[patronId := held + [isbn]]))
  {
    var r := Ledger(l.borrowers[isbn := [patronId]], l.loans[patronId := held + [isbn]]);
    assert isbn !in held;
    NoDuplicatesSnoc(held, isbn);
    forall p, i | p in r.loans && i in r.loans[p]
      ensures i in r.borrowers && r.borrowers[i] == [p]
    {
      if p == patronId && i != isbn {
        assert i in held;
      }
    }
    forall i | i in r.borrowers && r.borrowers[i] != []
      ensures r.borrowers[i][0] in r.loans && i in r.loans[r.borrowers[i][0]]
    {
      if i != isbn {
        var q := l.borrowers[i][0];
        assert i in l.loans[q];
      }
    }
  }

  lemma ReturnKeepsMirrored(l: Ledger, isbn: string, patronId: string)
    requires Mirrored(l) && isbn != "" && patronId != ""
    ensures Mirrored(Return(l, isbn, patronId).value.ledger)
  {
    MirroredIsSingleHolder(l);
    var s := Return(l, isbn, patronId).value;
    if s.ok {
      assert l.borrowers[isbn] == [patronId];
      assert RemoveFirst([patronId], patronId) == [];
      assert patronId in l.loans;
      var rest := RemoveFirst(l.loans[patronId], isbn);
      RemoveFirstNoDuplicates(l.loans[patronId], isbn);
      assert s.ledger == Ledger(l.borrowers[isbn := []], l.loans[patronId := rest]);
      ReleaseKeepsMirrored(l, isbn, patronId, rest);
    }
  }

  /** Clearing the holder of an ISBN and dropping it from its holder's list keeps the ledger mirrored. */
  lemma ReleaseKeepsMirrored(l: Ledger, isbn: string, patronId: string, rest: seq<string>)
    requires Mirrored(l) && isbn in l.borrowers && l.borrowers[isbn] == [patronId] && patronId in l.loans
    requires NoDuplicates(rest) && isbn !in rest
    requires forall i :: i != isbn ==> (i in rest <==> i in l.loans[patronId])
    ensures Mirrored(Ledger(l.borrowers[isbn := []], l.loans[patronId := rest]))
  {
    var r := Ledger(l.borrowers[isbn := []], l.loans[patronId := rest]);
    forall p, i | p in r.loans && i in r.loans[p]
      ensures i in r.borrowers && r.borrowers[i] == [p]
    {
      if p == patronId {
        assert i in l.loans[patronId];
      }
    }
    forall i | i in r.borrowers && r.borrowers[i] != []
      ensures r.borrowers[i][0] in r.loans && i in r.loans[r.borrowers[i][0]]
    {
      var p := l.borrowers[i][0];
      assert i in l.loans[p];
    }
  }

  /**
   * Checking out an available book and returning it with the same patron
   * succeeds twice and leaves the book available with its holder list as
   * before.
   */
  lemma CheckoutThenReturn(l: Ledger, isbn: string, patronId: string)
    requires IsAvailable(l, isbn) && patronId != ""
    ensures Checkout(l, isbn, patronId).Ok? && Checkout(l, isbn, patronId).value.ok
    ensures var c := Checkout(l, isbn, patronId).value.ledger;
            && Return(c, isbn, patronId).Ok? && Return(c, isbn, patronId).value.ok
            && IsAvailable(Return(c, isbn, patronId).value.ledger, isbn)
            && Return(c, isbn, patronId).value.ledger.borrowers == l.borrowers
  {
    var loans := if patronId in l.loans then l.loans else l.loans[patronId := []];
    CheckoutAvailable(l, isbn, patronId, loans);
    ReturnSoleHolder(l, Checkout(l, isbn, patronId).value.ledger, isbn, patronId, loans);
  }

  /** On a mirrored ledger where the patron already has an entry, checkout then return restores the whole ledger. */
  lemma CheckoutThenReturnRestores(l: Ledger, isbn: string, patronId: string)
    requires IsAvailable(l, isbn) && patronId != ""
    requires Mirrored(l) && patronId in l.loans
    ensures Return(Checkout(l, isbn, patronId).value.ledger, isbn, patronId) == Ok(Step(l, true))
  {
    CheckoutAvailable(l, isbn, patronId, l.loans);
    ReturnSoleHolder(l, Checkout(l, isbn, patronId).value.ledger, isbn, patronId, l.loans);
    AvailableNotLoaned(l, isbn, patronId);
    RestoreLoans(l, isbn, patronId);
  }

  /** On a mirrored ledger nobody's list names an available ISBN. */
  lemma AvailableNotLoaned(l: Ledger, isbn: string, patronId: string)
    requires Mirrored(l) && IsAvailable(l, isbn) && patronId in l.loans
    ensures isbn !in l.loans[patronId]
  {
  }

  lemma RestoreLoans(l: Ledger, isbn: string, patronId: string)
    requires patronId in l.loans && isbn !in l.loans[patronId]
    ensures l.loans[patronId := RemoveFirst(l.loans[patronId] + [isbn], isbn)] == l.loans
  {
    RemoveFirstOfAppended(l.loans[patronId], isbn);
    assert l.loans[patronId := l.loans[patronId]] == l.loans;
  }

  lemma CheckoutAvailable(l: Ledger, isbn: string, patronId: string, loans: map<string, seq<string>>)
    requires IsAvailable(l, isbn) && patronId != ""
    requires loans == if patronId in l.loans then l.loans else l.loans[patronId := []]
    ensures Checkout(l, isbn, patronId) ==
            Ok(Step(Ledger(l.borrowers[isbn := [patronId]], loans[patronId := loans[patronId] + [isbn]]), true))
  {
  }

  lemma ReturnSoleHolder(l: Ledger, c: Ledger, isbn: string, patronId: string, loans: map<string, seq<string>>)
    requires IsAvailable(l, isbn) && patronId != "" && patronId in loans
    requires c == Ledger(l.borrowers[isbn := [patronId]], loans[patronId := loans[patronId] + [isbn]])
    ensures Return(c, isbn, patronId) ==
            Ok(Step(Ledger(l.borrowers, loans[patronId := RemoveFirst(loans[patronId] + [isbn], isbn)]), true))
  {
    assert RemoveFirst([patronId], patronId) == [];
    assert c.borrowers[isbn := []] == l.borrowers;
    var rest := RemoveFirst(loans[patronId] + [isbn], isbn);
    assert c.loans[patronId := rest] == loans[patronId := rest];
  }

  /** Once a checkout succeeds, a second checkout of the same ISBN, by anyone, answers false. */
  lemma SecondCheckoutFails(l: Ledger, isbn: string, first: string, second: string)
    requires Checkout(l, isbn, first).Ok? && Checkout(l, isbn, first).value.ok && second != ""
    ensures Checkout(Checkout(l, isbn, first).value.ledger, isbn, second) ==
            Ok(Step(Checkout(Checkout(l, isbn, first).value.ledger, isbn, second).value.ledger, false))
  {
  }

  /** Initialising twice is initialising once. */
  lemma InitializeIdempotent(l: Ledger, isbn: string)
    requires isbn != ""
    ensures Initialize(Initialize(l, isbn).value, isbn) == Initialize(l, isbn)
  {
  }

  /** Removing an ISBN that was just initialised gives back the ledger from before. */
  lemma RemoveUndoesInitialize(l: Ledger, isbn: string)
    requires isbn != "" && isbn !in l.borrowers
    ensures Remove(Initialize(l, isbn).value, isbn) == Ok(l)
  {
    assert l.borrowers[isbn := []] - {isbn} == l.borrowers;
  }
}
