/**
 * `LibraryBranch`: a named branch with its own library service, and the
 * transfer of a catalogued book from one branch's service to another's, with
 * a rollback when the source cannot let the book go.
 */
module Branches {
  import opened Errors
  import opened JavaHash
  import opened Books
  import L = Ledger
  import opened Service

  class LibraryBranch {
    const branchId: string
    const branchName: string
    const location: string
    const libraryService: LibraryServiceImpl

    /** The branch's service keeps its own invariant. */
    ghost predicate Valid()
      reads this, libraryService, libraryService.inventoryManager
    {
      libraryService.Valid()
    }

    /** Every branch starts with a fresh, empty service. */
    constructor (branchId: string, branchName: string, location: string)
      ensures this.branchId == branchId && this.branchName == branchName && this.location == location
      ensures fresh(libraryService) && fresh(libraryService.inventoryManager) && Valid()
      ensures libraryService.books == map[] && libraryService.inventoryManager.State() == L.Empty
    {
      this.branchId := branchId;
      this.branchName := branchName;
      this.location := location;
      libraryService := new LibraryServiceImpl();
    }

    /**
     * Two branches either share one service or keep apart all the state a
     * transfer touches; branches built by the constructor are always apart.
     */
    ghost predicate ApartFrom(target: LibraryBranch)
      reads this, target, libraryService, target.libraryService
    {
      || target.libraryService == libraryService
      || ({libraryService, libraryService.inventoryManager} !! {target.libraryService, target.libraryService.inventoryManager})
    }

    /**
     * `transferBook`. With S this branch's service and T the target's:
     * a null book or target gives false; an empty ISBN throws from the lookup
     * in S; a book S does not catalogue gives false; if T rejects the book
     * (it already catalogues that ISBN) the answer is false. Otherwise T
     * catalogues it and S removes it; when S refuses because the book is on
     * loan, T's copy is removed again and the answer is false. In every
     * case but success both services end as they began. On success the ISBN
     * leaves S's catalog and ledger and enters T's, available (so the two
     * catalogs hold as many books together as before: `MovingKeepsTotal`).
     */
    method TransferBook(book: Option<Book>, target: LibraryBranch?) returns (r: Result<bool>)
      requires Valid() && (target != null ==> target.Valid() && ApartFrom(target))
      modifies libraryService, libraryService.inventoryManager
      modifies if target == null then {} else {target.libraryService, target.libraryService.inventoryManager}
      ensures Valid() && (target != null ==> target.Valid())
      ensures r.Err? <==> book.Some? && target != null && book.value.isbn == ""
      ensures r.Err? ==> r.ex == IllegalArgument
      ensures r == Ok(true) <==>
                && book.Some? && target != null && book.value.isbn != ""
                && book.value.isbn in old(libraryService.books)
                && book.value.isbn !in old(target.libraryService.books)
                && old(libraryService.inventoryManager.IsBookAvailable(book.value.isbn))
      ensures r != Ok(true) ==>
                && libraryService.books == old(libraryService.books)
                && libraryService.inventoryManager.State() == old(libraryService.inventoryManager.State())
      ensures r != Ok(true) && target != null ==>
                && target.libraryService.books == old(target.libraryService.books)
                && target.libraryService.inventoryManager.State() == old(target.libraryService.inventoryManager.State())
      ensures r == Ok(true) ==>
                && libraryService.books == old(libraryService.books) - {book.value.isbn}
                && libraryService.inventoryManager.State() == L.Remove(old(libraryService.inventoryManager.State()), book.value.isbn).value
                && target.libraryService.books == old(target.libraryService.books)[book.value.isbn := book.value]
                && target.libraryService.inventoryManager.State() == L.Initialize(old(target.libraryService.inventoryManager.State()), book.value.isbn).value
                && target.libraryService.inventoryManager.IsBookAvailable(book.value.isbn)
    {
      if book.None? || target == null {
        return Ok(false);
      }
      var isbn := book.value.isbn;
      var existing := libraryService.FindBookByIsbn(isbn);
      if existing.Err? {
        return Err(existing.ex);
      }
      if existing.value.None? {
        return Ok(false);
      }
      var source, destination := libraryService, target.libraryService;
      // `addBook` throws only IllegalArgumentException, which is caught.
      var added := destination.AddBook(book);
      if added.Thrown? {
        return Ok(false);
      }
      assert source != destination;
      assert isbn !in old(destination.books);
      var removed := source.RemoveBook(isbn);
      if removed.Thrown? {
        // Rollback: the copy just catalogued in T is removed again, which cannot fail.
        var undone := destination.RemoveBook(isbn);
        assert undone == Done;
        L.RemoveUndoesInitialize(old(destination.inventoryManager.State()), isbn);
        assert destination.books == old(destination.books);
        return Ok(false);
      }
      return Ok(true);
    }

    /** `equals`: same branch id; equal branches hash alike. */
    predicate Equals(other: LibraryBranch?): (eq: bool)
      ensures eq ==> other != null && other.HashCode() == HashCode()
      ensures other != null ==> (eq <==> other.branchId == branchId)
    {
      other != null && branchId == other.branchId
    }

    /** `hashCode`: `Objects.hash(branchId)`. */
    function HashCode(): (h: int)
      ensures IsInt32(h)
    {
      ObjectsHash(branchId)
    }
  }

  /** Moving one book from one catalog to another keeps the number of books they hold together. */
  lemma MovingKeepsTotal(from: map<string, Book>, to: map<string, Book>, book: Book)
    requires book.isbn in from && book.isbn !in to
    ensures |from - {book.isbn}| + |to[book.isbn := book]| == |from| + |to|
  {
    assert (from - {book.isbn}).Keys == from.Keys - {book.isbn};
    assert to[book.isbn := book].Keys == to.Keys + {book.isbn};
  }

  /** Equal branches have equal hash codes. */
  lemma EqualBranchesHashAlike(a: LibraryBranch, b: LibraryBranch)
    requires a.Equals(b)
    ensures a.HashCode() == b.HashCode()
  {
  }
}
