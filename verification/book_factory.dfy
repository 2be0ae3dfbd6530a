/** `BookFactory.createBook`: builds a book of the runtime class its type tag names. */
module BookFactory {
  import opened Books

  /** `BookFactory.BookType`. */
  datatype BookType = Fiction | NonFiction | Reference | General

  /**
   * Every type yields a book with the given title, author, ISBN and year;
   * FICTION a FictionBook of genre "Fiction", NON_FICTION a NonFictionBook
   * of subject "Non-Fiction", REFERENCE a ReferenceBook marked reference-only,
   * and GENERAL (the `default` branch) a plain Book.
   */
  function CreateBook(title: string, author: string, isbn: string, publicationYear: int, bookType: BookType): (b: Book)
    ensures b.title == title && b.author == author && b.isbn == isbn && b.publicationYear == publicationYear
    ensures b.kind == FictionBook("Fiction") <==> bookType == Fiction
    ensures b.kind == NonFictionBook("Non-Fiction") <==> bookType == NonFiction
    ensures b.kind == ReferenceBook(true) <==> bookType == Reference
    ensures b.kind == PlainBook <==> bookType == General
  {
    match bookType
    case Fiction => Book(title, author, isbn, publicationYear, FictionBook("Fiction"))
    case NonFiction => Book(title, author, isbn, publicationYear, NonFictionBook("Non-Fiction"))
    case Reference => Book(title, author, isbn, publicationYear, ReferenceBook(true))
    case General => NewBook(title, author, isbn, publicationYear)
  }

  /**
   * Because `equals` compares runtime classes, two factory books of different
   * types are never equal, even with the same ISBN; books of one type are
   * equal exactly when their ISBNs are.
   */
  lemma FactoryBooksEqualIffSameTypeAndIsbn(t1: string, a1: string, i1: string, y1: int, k1: BookType,
                                            t2: string, a2: string, i2: string, y2: int, k2: BookType)
    ensures CreateBook(t1, a1, i1, y1, k1).Equals(CreateBook(t2, a2, i2, y2, k2)) <==> k1 == k2 && i1 == i2
  {
  }
}
