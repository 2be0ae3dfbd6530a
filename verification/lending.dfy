/**
 * `LendingManager`: guards checkout and return (ids, patron existence,
 * availability) and then hands the work to the inventory. It keeps no data of
 * its own; the functions below say what one call does to the ledger, and the
 * class is proved to follow them.
 */
module Lending {
  import opened Errors
  import L = Ledger
  import opened Inventory
  import opened PatronRegistry

  /**
   * `checkoutBook` on ledger `l`, given whether the patron is registered:
   * empty ids throw; an unknown patron or a book that is not available (held,
   * or not tracked at all) gives false with the ledger untouched, so this path
   * never starts tracking an ISBN; otherwise the ledger's checkout happens and
   * the patron becomes the book's only holder.
   */
  function Checkout(l: L.Ledger, patronExists: bool, isbn: string, patronId: string): (r: Result<L.Step>)
    ensures r.Err? <==> isbn == "" || patronId == ""
    ensures r.Err? ==> r.ex == IllegalArgument
    ensures r.Ok? ==> (r.value.ok <==> patronExists && L.IsAvailable(l, isbn))
    ensures r.Ok? && !r.value.ok ==> r.value.ledger == l
    ensures r.Ok? && r.value.ok ==> L.HoldersOf(r.value.ledger, isbn) == [patronId] && !L.IsAvailable(r.value.ledger, isbn)
    ensures r.Ok? && r.value.ok ==> r.value.ledger.borrowers.Keys == l.borrowers.Keys
    ensures r.Ok? && r.value.ok ==> r == L.Checkout(l, isbn, patronId)
  {
    if isbn == "" || patronId == "" then Err(IllegalArgument)
    else if !patronExists || !L.IsAvailable(l, isbn) then Ok(L.Step(l, false))
    else L.Checkout(l, isbn, patronId)
  }

  /**
   * `returnBook` on ledger `l`: empty ids throw; an unknown patron gives false
   * with the ledger untouched; for a registered patron the answer and the new
   * ledger are exactly those of the ledger's own return.
   */
  function Return(l: L.Ledger, patronExists: bool, isbn: string, patronId: string): (r: Result<L.Step>)
    ensures r.Err? <==> isbn == "" || patronId == ""
    ensures r.Err? ==> r.ex == IllegalArgument
    ensures r.Ok? && !patronExists ==> r.value == L.Step(l, false)
    ensures r.Ok? && patronExists ==> r == L.Return(l, isbn, patronId)
    ensures r.Ok? ==> (r.value.ok <==> patronExists && patronId in L.HoldersOf(l, isbn))
  {
    if isbn == "" || patronId == "" then Err(IllegalArgument)
    else if !patronExists then Ok(L.Step(l, false))
    else L.Return(l, isbn, patronId)
  }

  /** A registered patron who checks out an available book and returns it makes it available again. */
  lemma CheckoutThenReturnRestoresAvailability(l: L.Ledger, isbn: string, patronId: string)
    requires L.IsAvailable(l, isbn) && patronId != ""
    ensures Checkout(l, true, isbn, patronId).Ok? && Checkout(l, true, isbn, patronId).value.ok
    ensures var c := Checkout(l, true, isbn, patronId).value.ledger;
            && Return(c, true, isbn, patronId).Ok? && Return(c, true, isbn, patronId).value.ok
            && L.IsAvailable(Return(c, true, isbn, patronId).value.ledger, isbn)
  {
    L.CheckoutThenReturn(l, isbn, patronId);
  }

  /** Lending keeps the inventory's two maps mirror images of each other. */
  lemma LendingKeepsMirrored(l: L.Ledger, patronExists: bool, isbn: string, patronId: string)
    requires L.Mirrored(l)
    ensures Checkout(l, patronExists, isbn, patronId).Ok? ==> L.Mirrored(Checkout(l, patronExists, isbn, patronId).value.ledger)
    ensures Return(l, patronExists, isbn, patronId).Ok? ==> L.Mirrored(Return(l, patronExists, isbn, patronId).value.ledger)
  {
    L.OperationsKeepMirrored(l, isbn, patronId);
  }

  class LendingManager {
    const inventoryManager: InventoryManager
    const patronManager: PatronManager

    constructor (inventoryManager: InventoryManager, patronManager: PatronManager)
      ensures this.inventoryManager == inventoryManager && this.patronManager == patronManager
    {
      this.inventoryManager := inventoryManager;
      this.patronManager := patronManager;
    }

    /**
     * `checkoutBook`: the answer and the new ledger are those of
     * `Lending.Checkout`. Only the inventory may change, so no patron's
     * borrowing history does.
     */
    method CheckoutBook(isbn: string, patronId: string) returns (r: Result<bool>)
      modifies inventoryManager
      ensures Checkout(old(inventoryManager.State()), patronManager.PatronExists(patronId), isbn, patronId).Err? ==>
                r == Err(IllegalArgument) && inventoryManager.State() == old(inventoryManager.State())
      ensures Checkout(old(inventoryManager.State()), patronManager.PatronExists(patronId), isbn, patronId).Ok? ==>
                r == Ok(Checkout(old(inventoryManager.State()), patronManager.PatronExists(patronId), isbn, patronId).value.ok) &&
                inventoryManager.State() == Checkout(old(inventoryManager.State()), patronManager.PatronExists(patronId), isbn, patronId).value.ledger
    {
      if isbn == "" || patronId == "" {
        return Err(IllegalArgument);
      }
      if !patronManager.PatronExists(patronId) {
        return Ok(false);
      }
      if !inventoryManager.IsBookAvailable(isbn) {
        return Ok(false);
      }
      r := inventoryManager.RecordCheckout(isbn, patronId);
    }

    /** `returnBook`: the answer and the new ledger are those of `Lending.Return`. */
    method ReturnBook(isbn: string, patronId: string) returns (r: Result<bool>)
      modifies inventoryManager
      ensures Return(old(inventoryManager.State()), patronManager.PatronExists(patronId), isbn, patronId).Err? ==>
                r == Err(IllegalArgument) && inventoryManager.State() == old(inventoryManager.State())
      ensures Return(old(inventoryManager.State()), patronManager.PatronExists(patronId), isbn, patronId).Ok? ==>
                r == Ok(Return(old(inventoryManager.State()), patronManager.PatronExists(patronId), isbn, patronId).value.ok) &&
                inventoryManager.State() == Return(old(inventoryManager.State()), patronManager.PatronExists(patronId), isbn, patronId).value.ledger
    {
      if isbn == "" || patronId == "" {
        return Err(IllegalArgument);
      }
      if !patronManager.PatronExists(patronId) {
        return Ok(false);
      }
      r := inventoryManager.RecordReturn(isbn, patronId);
    }
  }
}
