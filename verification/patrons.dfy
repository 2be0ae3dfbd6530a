/**
 * The `Patron` entity: contact details that setters change in place, a
 * patron id fixed at construction (there is no setter for it), and a
 * borrowing history that only grows and never holds two equal books.
 */
module Patrons {
  import opened JavaHash
  import opened Books

  /**
   * The history rule of `addToBorrowingHistory`: the book is appended unless an
   * equal book is already recorded. The history only grows, at its end, always
   * contains the book afterwards, and stays free of equal pairs.
   */
  function AddIfAbsent(history: seq<Book>, book: Book): (r: seq<Book>)
    ensures Contains(r, book)
    ensures |history| <= |r| <= |history| + 1 && r[..|history|] == history
    ensures |r| == |history| + 1 <==> !Contains(history, book)
    ensures Distinct(history) ==> Distinct(r)
  {
    if Contains(history, book) then history
    else
      assert book.Equals((history + [book])[|history|]);
      history + [book]
  }

  /** Adding the same book twice leaves the history that adding it once leaves. */
  lemma AddIfAbsentIdempotent(history: seq<Book>, book: Book)
    ensures AddIfAbsent(AddIfAbsent(history, book), book) == AddIfAbsent(history, book)
  {
  }

  class Patron {
    var name: string
    var email: string
    var phoneNumber: string
    const patronId: string
    var borrowingHistory: seq<Book>

    /** A new patron has the given details and an empty borrowing history. */
    constructor (name: string, email: string, phoneNumber: string, patronId: string)
      ensures this.name == name && this.email == email && this.phoneNumber == phoneNumber
      ensures this.patronId == patronId
      ensures borrowingHistory == []
    {
      this.name := name;
      this.email := email;
      this.phoneNumber := phoneNumber;
      this.patronId := patronId;
      borrowingHistory := [];
    }

    method SetName(name: string)
      modifies this
      ensures this.name == name
      ensures email == old(email) && phoneNumber == old(phoneNumber) && borrowingHistory == old(borrowingHistory)
    {
      this.name := name;
    }

    method SetEmail(email: string)
      modifies this
      ensures this.email == email
      ensures name == old(name) && phoneNumber == old(phoneNumber) && borrowingHistory == old(borrowingHistory)
    {
      this.email := email;
    }

    method SetPhoneNumber(phoneNumber: string)
      modifies this
      ensures this.phoneNumber == phoneNumber
      ensures name == old(name) && email == old(email) && borrowingHistory == old(borrowingHistory)
    {
      this.phoneNumber := phoneNumber;
    }

    /** Appends the book unless an equal one is recorded; nothing else about the patron changes. */
    method AddToBorrowingHistory(book: Book)
      modifies this
      ensures borrowingHistory == AddIfAbsent(old(borrowingHistory), book)
      ensures name == old(name) && email == old(email) && phoneNumber == old(phoneNumber)
    {
      if !Contains(borrowingHistory, book) {
        borrowingHistory := borrowingHistory + [book];
      }
    }

    /** `Patron.equals`: a non-null patron with the same patron id; equal patrons hash alike. */
    predicate Equals(other: Patron?): (eq: bool)
      ensures eq ==> other != null && other.HashCode() == HashCode()
      ensures other != null ==> (eq <==> other.patronId == patronId)
    {
      other != null && patronId == other.patronId
    }

    /** `Patron.hashCode`: `Objects.hash(patronId)`, so equal patrons hash alike. */
    function HashCode(): (h: int)
      ensures IsInt32(h)
    {
      ObjectsHash(patronId)
    }
  }

  /** Equal patrons have equal hash codes. */
  lemma EqualPatronsHashAlike(a: Patron, b: Patron)
    requires a.Equals(b)
    ensures a.HashCode() == b.HashCode()
  {
  }
}
