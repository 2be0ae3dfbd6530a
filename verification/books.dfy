/**
 * The `Book` entity and its three subclasses, folded into one value type with
 * a tag for the runtime class. A book is identified by its runtime class and
 * its ISBN: `Book.equals` compares `getClass()` and the ISBN and nothing else.
 */
module Books {
  import opened JavaHash

  /**
   * The runtime class of a book, with the one field each subclass adds;
   * the subclass constructors fix that field to a constant.
   */
  datatype BookKind =
    | PlainBook
    | FictionBook(genre: string)
    | NonFictionBook(subject: string)
    | ReferenceBook(isReferenceOnly: bool)

  /** What `getClass()` distinguishes. */
  datatype BookClass = PlainClass | FictionClass | NonFictionClass | ReferenceClass

  datatype Book = Book(title: string, author: string, isbn: string, publicationYear: int, kind: BookKind)
  {
    function Class(): BookClass {
      match kind
      case PlainBook => PlainClass
      case FictionBook(_) => FictionClass
      case NonFictionBook(_) => NonFictionClass
      case ReferenceBook(_) => ReferenceClass
    }

    /**
     * `Book.equals`: the same runtime class and the same ISBN; within one
     * class, equality is ISBN identity.
     */
    predicate Equals(other: Book): (eq: bool)
      ensures eq ==> isbn == other.isbn
      ensures Class() == other.Class() ==> (eq <==> isbn == other.isbn)
    {
      Class() == other.Class() && isbn == other.isbn
    }

    /** `Book.hashCode`: `Objects.hash(isbn)`. */
    function HashCode(): (h: int)
      ensures IsInt32(h)
    {
      ObjectsHash(isbn)
    }

    /** `setTitle`: only the title changes, so the book stays equal to what it was. */
    function SetTitle(title: string): (r: Book)
      ensures r.title == title
      ensures r.author == author && r.isbn == isbn && r.publicationYear == publicationYear && r.kind == kind
      ensures r.Equals(this)
    {
      this.(title := title)
    }

    /** `setAuthor`: only the author changes, so the book stays equal to what it was. */
    function SetAuthor(author: string): (r: Book)
      ensures r.author == author
      ensures r.title == title && r.isbn == isbn && r.publicationYear == publicationYear && r.kind == kind
      ensures r.Equals(this)
    {
      this.(author := author)
    }

    /** `setIsbn`: only the ISBN changes, so the book stays equal to what it was exactly when the ISBN is the same. */
    function SetIsbn(isbn: string): (r: Book)
      ensures r.isbn == isbn
      ensures r.title == title && r.author == author && r.publicationYear == publicationYear && r.kind == kind
      ensures r.Equals(this) <==> isbn == this.isbn
    {
      this.(isbn := isbn)
    }

    /** `setPublicationYear`: only the year changes, so the book stays equal to what it was. */
    function SetPublicationYear(year: int): (r: Book)
      ensures r.publicationYear == year
      ensures r.title == title && r.author == author && r.isbn == isbn && r.kind == kind
      ensures r.Equals(this)
    {
      this.(publicationYear := year)
    }
  }

  /** `new Book(title, author, isbn, publicationYear)`: a plain book whose getters return the arguments. */
  function NewBook(title: string, author: string, isbn: string, publicationYear: int): (b: Book)
    ensures b.title == title && b.author == author && b.isbn == isbn && b.publicationYear == publicationYear
    ensures b.Class() == PlainClass
  {
    Book(title, author, isbn, publicationYear, PlainBook)
  }

  /** `Book.equals` is an equivalence relation, and within one class it is ISBN equality. */
  lemma EqualsIsIsbnIdentity(a: Book, b: Book, c: Book)
    ensures a.Equals(a)
    ensures a.Equals(b) ==> b.Equals(a)
    ensures a.Equals(b) && b.Equals(c) ==> a.Equals(c)
    ensures a.Class() == b.Class() ==> (a.Equals(b) <==> a.isbn == b.isbn)
  {
  }

  /** Equal books have equal hash codes. */
  lemma EqualBooksHashAlike(a: Book, b: Book)
    requires a.Equals(b)
    ensures a.HashCode() == b.HashCode()
  {
  }

  /** `List.contains(book)` on a list of books: some entry is equal to `b`. */
  predicate Contains(s: seq<Book>, b: Book) {
    exists i :: 0 <= i < |s| && b.Equals(s[i])
  }

  /** No two entries are equal books. */
  ghost predicate Distinct(s: seq<Book>) {
    forall i, j :: 0 <= i < j < |s| ==> !s[i].Equals(s[j])
  }

  lemma ContainsAppend(s: seq<Book>, t: seq<Book>, b: Book)
    ensures Contains(s + t, b) <==> Contains(s, b) || Contains(t, b)
  {
    if Contains(s + t, b) {
      var i :| 0 <= i < |s + t| && b.Equals((s + t)[i]);
      if i >= |s| {
        assert b.Equals(t[i - |s|]);
      }
    }
    if Contains(t, b) {
      var i :| 0 <= i < |t| && b.Equals(t[i]);
      assert b.Equals((s + t)[|s| + i]);
    }
    if Contains(s, b) {
      var i :| 0 <= i < |s| && b.Equals(s[i]);
      assert b.Equals((s + t)[i]);
    }
  }
}
