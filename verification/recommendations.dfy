/**
 * `RecommendationSystem`: per patron, the authors and ISBNs seen in the
 * patron's borrowing history (each recorded once, in first-seen order), and a
 * bounded list of recommended books built from them: books by preferred
 * authors first, then any other book the patron has not borrowed.
 */
module Recommendations {
  import opened Errors
  import opened Collections
  import opened Books
  import opened Patrons

  /** The list recorded for a patron, or none when the patron has no entry (`getOrDefault`). */
  function PrefsOf(m: map<string, seq<string>>, patronId: string): (r: seq<string>)
    ensures patronId in m ==> r == m[patronId]
    ensures patronId !in m ==> r == []
  {
    if patronId in m then m[patronId] else []
  }

  /** The authors of a history, book by book. */
  function Authors(history: seq<Book>): seq<string> {
    seq(|history|, i requires 0 <= i < |history| => history[i].author)
  }

  /** The ISBNs of a history, book by book. */
  function Isbns(history: seq<Book>): seq<string> {
    seq(|history|, i requires 0 <= i < |history| => history[i].isbn)
  }

  /** One more book of a history adds its author and its ISBN. */
  lemma HistorySnoc(history: seq<Book>, i: int)
    requires 0 <= i < |history|
    ensures Authors(history[..i + 1]) == Authors(history[..i]) + [history[i].author]
    ensures Isbns(history[..i + 1]) == Isbns(history[..i]) + [history[i].isbn]
  {
  }

  /**
   * The loop of `updatePreferences` on one list: each of `xs` in turn is
   * appended unless already present, so the old list stays a prefix.
   */
  function AppendNew(prefs: seq<string>, xs: seq<string>): (r: seq<string>)
    ensures |prefs| <= |r| && r[..|prefs|] == prefs
  {
    if xs == [] then prefs
    else
      var p := AppendNew(prefs, xs[..|xs| - 1]);
      var x := xs[|xs| - 1];
      if x in p then p else p + [x]
  }

  /** The result holds exactly the old entries and `xs`, and a list without repeats stays so. */
  lemma {:induction false} AppendNewContents(prefs: seq<string>, xs: seq<string>)
    ensures forall y :: y in AppendNew(prefs, xs) <==> y in prefs || y in xs
    ensures NoDuplicates(prefs) ==> NoDuplicates(AppendNew(prefs, xs))
  {
    if xs != [] {
      var init, x := xs[..|xs| - 1], xs[|xs| - 1];
      AppendNewContents(prefs, init);
      assert xs == init + [x];
    }
  }

  /** One more entry: appended unless already present. */
  lemma AppendNewSnoc(prefs: seq<string>, xs: seq<string>, x: string)
    ensures AppendNew(prefs, xs + [x]) ==
            if x in AppendNew(prefs, xs) then AppendNew(prefs, xs) else AppendNew(prefs, xs) + [x]
  {
    assert (xs + [x])[..|xs|] == xs;
  }

  /** Feeding the same history twice records what feeding it once records. */
  lemma {:induction false} AppendNewIdempotent(prefs: seq<string>, xs: seq<string>)
    ensures AppendNew(AppendNew(prefs, xs), xs) == AppendNew(prefs, xs)
  {
    AppendNewContents(prefs, xs);
    AppendNewOfPresent(AppendNew(prefs, xs), xs);
  }

  /** Entries already present append nothing. */
  lemma {:induction false} AppendNewOfPresent(prefs: seq<string>, xs: seq<string>)
    requires forall x :: x in xs ==> x in prefs
    ensures AppendNew(prefs, xs) == prefs
  {
    if xs != [] {
      AppendNewOfPresent(prefs, xs[..|xs| - 1]);
      assert xs[|xs| - 1] in xs;
    }
  }

  /** The books of `allBooks` by `author` whose ISBN the patron has not borrowed, in order (the stream filter). */
  function ByAuthor(allBooks: seq<Book>, author: string, borrowed: seq<string>): (r: seq<Book>)
    ensures forall b :: b in r <==> b in allBooks && b.author == author && b.isbn !in borrowed
  {
    if allBooks == [] then []
    else
      var b := allBooks[|allBooks| - 1];
      var rest := ByAuthor(allBooks[..|allBooks| - 1], author, borrowed);
      assert allBooks == allBooks[..|allBooks| - 1] + [b];
      if b.author == author && b.isbn !in borrowed then rest + [b] else rest
  }

  /** No entry by an author outside `preferred` comes before an entry by a preferred author. */
  ghost predicate AuthorsFirst(recs: seq<Book>, preferred: seq<string>) {
    forall i, j :: 0 <= i < j < |recs| && recs[j].author in preferred ==> recs[i].author in preferred
  }

  /** A book by another author is listed only once every unborrowed book by a preferred author is. */
  ghost predicate PreferredBeforeFill(recs: seq<Book>, books: seq<Book>, preferred: seq<string>, borrowed: seq<string>) {
    (exists o :: o in recs && o.author !in preferred) ==>
      forall b :: b in books && b.isbn !in borrowed && b.author in preferred ==> Contains(recs, b)
  }

  /** A book by an author outside `preferred` can go at the end. */
  lemma AppendOtherKeepsAuthorsFirst(recs: seq<Book>, book: Book, preferred: seq<string>)
    requires AuthorsFirst(recs, preferred) && book.author !in preferred
    ensures AuthorsFirst(recs + [book], preferred)
  {
  }

  /** No list in the map holds an entry twice. */
  ghost predicate ListsDistinct(m: map<string, seq<string>>) {
    forall id :: id in m ==> NoDuplicates(m[id])
  }

  /** Storing a list without repeats keeps every list without repeats. */
  lemma StoreKeepsListsDistinct(m: map<string, seq<string>>, id: string, known: seq<string>, xs: seq<string>)
    requires ListsDistinct(m) && known == PrefsOf(m, id)
    ensures ListsDistinct(m[id := AppendNew(known, xs)])
  {
    AppendNewContents(known, xs);
  }

  /** Appending to a list keeps what it contains and adds the new entry. */
  lemma ContainsSnoc(s: seq<Book>, c: Book)
    ensures Contains(s + [c], c)
    ensures forall b :: Contains(s, b) ==> Contains(s + [c], b)
    ensures !Contains(s, c) && Distinct(s) ==> Distinct(s + [c])
  {
    assert c.Equals([c][0]);
    ContainsAppend(s, [c], c);
    forall b | Contains(s, b)
      ensures Contains(s + [c], b)
    {
      ContainsAppend(s, [c], b);
    }
    if !Contains(s, c) && Distinct(s) {
      forall i, j | 0 <= i < j < |s + [c]|
        ensures !(s + [c])[i].Equals((s + [c])[j])
      {
        if j == |s| {
          assert !c.Equals(s[i]);
        }
      }
    }
  }

  class RecommendationSystem {
    /** Patron id -> authors seen in the patron's history. */
    var authorPreferences: map<string, seq<string>>
    /** Patron id -> ISBNs seen in the patron's history. */
    var bookPreferences: map<string, seq<string>>

    /** No preference list holds an entry twice. */
    ghost predicate Valid()
      reads this
    {
      ListsDistinct(authorPreferences) && ListsDistinct(bookPreferences)
    }

    constructor ()
      ensures authorPreferences == map[] && bookPreferences == map[]
      ensures Valid()
    {
      authorPreferences := map[];
      bookPreferences := map[];
    }

    /**
     * `updatePreferences`: nothing for a null patron; otherwise the patron gets
     * entries in both maps and each history book's author and ISBN are appended
     * to them unless already there. Other patrons' lists stay as they were.
     */
    method UpdatePreferences(patron: Patron?)
      requires Valid()
      modifies this
      ensures Valid()
      ensures patron == null ==> authorPreferences == old(authorPreferences) && bookPreferences == old(bookPreferences)
      ensures patron != null ==>
                authorPreferences == old(authorPreferences)[patron.patronId :=
                  AppendNew(PrefsOf(old(authorPreferences), patron.patronId), Authors(patron.borrowingHistory))]
      ensures patron != null ==>
                bookPreferences == old(bookPreferences)[patron.patronId :=
                  AppendNew(PrefsOf(old(bookPreferences), patron.patronId), Isbns(patron.borrowingHistory))]
    {
      if patron == null {
        return;
      }
      var id := patron.patronId;
      var history := patron.borrowingHistory;
      // putIfAbsent, then the in-place appends, carried in locals and stored at the end.
      var knownAuthors, knownIsbns := PrefsOf(authorPreferences, id), PrefsOf(bookPreferences, id);
      var authors, isbns := knownAuthors, knownIsbns;
      assert Authors(history[..0]) == [] && Isbns(history[..0]) == [];
      assert authors == AppendNew(knownAuthors, []);
      var i := 0;
      while i < |history|
        invariant 0 <= i <= |history|
        invariant authors == AppendNew(knownAuthors, Authors(history[..i]))
        invariant isbns == AppendNew(knownIsbns, Isbns(history[..i]))
        invariant authorPreferences == old(authorPreferences) && bookPreferences == old(bookPreferences)
      {
        var book := history[i];
        ghost var seenAuthors, seenIsbns := Authors(history[..i]), Isbns(history[..i]);
        HistorySnoc(history, i);
        AppendNewSnoc(knownAuthors, seenAuthors, book.author);
        AppendNewSnoc(knownIsbns, seenIsbns, book.isbn);
        if book.author !in authors {
          authors := authors + [book.author];
        }
        assert authors == AppendNew(knownAuthors, seenAuthors + [book.author]);
        if book.isbn !in isbns {
          isbns := isbns + [book.isbn];
        }
        assert isbns == AppendNew(knownIsbns, seenIsbns + [book.isbn]);
        assert authors == AppendNew(knownAuthors, Authors(history[..i + 1]));
        i := i + 1;
      }
      assert history[..|history|] == history;
      StoreKeepsListsDistinct(authorPreferences, id, knownAuthors, Authors(history));
      StoreKeepsListsDistinct(bookPreferences, id, knownIsbns, Isbns(history));
      authorPreferences := authorPreferences[id := authors];
      bookPreferences := bookPreferences[id := isbns];
    }

    /**
     * `generateRecommendations`, where `allBooks` is what the library
     * service's `getAllBooks` returns (`None` for a null service). A null
     * patron or service, or a non-positive maximum, gives no recommendation.
     * Otherwise the result has at most the maximum number of entries, all
     * from `allBooks`, none with an ISBN in the patron's recorded list, no two
     * equal; books by preferred authors come before any other, and a book by
     * another author is listed only once every unborrowed book by a preferred
     * author is; and when the
     * result is below the maximum it holds every book of `allBooks` the
     * patron has not borrowed.
     */
    method GenerateRecommendations(patron: Patron?, allBooks: Option<seq<Book>>, maxRecommendations: int)
      returns (recs: seq<Book>)
      ensures patron == null || allBooks.None? || maxRecommendations <= 0 ==> recs == []
      ensures |recs| <= maxRecommendations || recs == []
      ensures forall b :: b in recs ==> allBooks.Some? && b in allBooks.value
      ensures patron != null ==> forall b :: b in recs ==> b.isbn !in PrefsOf(bookPreferences, patron.patronId)
      ensures Distinct(recs)
      ensures patron != null ==> AuthorsFirst(recs, PrefsOf(authorPreferences, patron.patronId))
      ensures patron != null && allBooks.Some? && |recs| < maxRecommendations ==>
                forall b :: b in allBooks.value && b.isbn !in PrefsOf(bookPreferences, patron.patronId) ==> Contains(recs, b)
      ensures patron != null && allBooks.Some? ==>
                PreferredBeforeFill(recs, allBooks.value, PrefsOf(authorPreferences, patron.patronId), PrefsOf(bookPreferences, patron.patronId))
    {
      if patron == null || allBooks.None? || maxRecommendations <= 0 {
        return [];
      }
      var books := allBooks.value;
      var preferred := PrefsOf(authorPreferences, patron.patronId);
      var borrowed := PrefsOf(bookPreferences, patron.patronId);
      recs := RecommendPreferred(books, preferred, borrowed, maxRecommendations);
      if |recs| < maxRecommendations {
        recs := RecommendRemaining(books, preferred, borrowed, maxRecommendations, recs);
      }
    }
  }

  /**
   * The first phase of `generateRecommendations`: for each preferred author
   * in turn, that author's books the patron has not borrowed, each added
   * while there is room and no equal book is listed yet. Unless the maximum
   * is reached, every such book ends up listed.
   */
  method RecommendPreferred(books: seq<Book>, preferred: seq<string>, borrowed: seq<string>, max: int)
    returns (recs: seq<Book>)
    requires max > 0
    ensures |recs| <= max && Distinct(recs)
    ensures forall b :: b in recs ==> b in books && b.isbn !in borrowed && b.author in preferred
    ensures |recs| >= max || forall b :: b in books && b.isbn !in borrowed && b.author in preferred ==> Contains(recs, b)
  {
    recs := [];
    var a := 0;
    while a < |preferred|
      invariant 0 <= a <= |preferred|
      invariant |recs| <= max && Distinct(recs)
      invariant forall b :: b in recs ==> b in books && b.isbn !in borrowed && b.author in preferred
      invariant |recs| >= max || forall b :: b in books && b.isbn !in borrowed && b.author in preferred[..a] ==> Contains(recs, b)
    {
      var byAuthor := ByAuthor(books, preferred[a], borrowed);
      recs := AddAbsent(byAuthor, recs, max);
      assert preferred[..a + 1] == preferred[..a] + [preferred[a]];
      a := a + 1;
    }
    assert preferred[..|preferred|] == preferred;
  }

  /**
   * The inner loop of the first phase: each candidate is appended while the
   * list is below the maximum and holds no equal book. What was listed stays
   * listed; unless the maximum is reached, every candidate ends up listed.
   */
  method AddAbsent(candidates: seq<Book>, recs0: seq<Book>, max: int) returns (recs: seq<Book>)
    requires |recs0| <= max && Distinct(recs0)
    ensures |recs0| <= |recs| <= max && Distinct(recs)
    ensures forall b :: b in recs ==> b in recs0 || b in candidates
    ensures forall b :: Contains(recs0, b) ==> Contains(recs, b)
    ensures |recs| >= max || forall b :: b in candidates ==> Contains(recs, b)
  {
    recs := recs0;
    var j := 0;
    while j < |candidates|
      invariant 0 <= j <= |candidates|
      invariant |recs0| <= |recs| <= max && Distinct(recs)
      invariant forall b :: b in recs ==> b in recs0 || b in candidates
      invariant forall b :: Contains(recs0, b) ==> Contains(recs, b)
      invariant |recs| >= max || forall b :: b in candidates[..j] ==> Contains(recs, b)
    {
      var book := candidates[j];
      ContainsSnoc(recs, book);
      assert candidates[..j + 1] == candidates[..j] + [book];
      if |recs| < max && !Contains(recs, book) {
        recs := recs + [book];
      }
      j := j + 1;
    }
    assert candidates[..|candidates|] == candidates;
  }

  /**
   * The second phase of `generateRecommendations`, entered with room left
   * after the first: every other book the patron has not borrowed, in
   * catalog order, stopping at the maximum. Books by preferred authors are
   * all listed already, so everything added here is by another author.
   */
  method RecommendRemaining(books: seq<Book>, preferred: seq<string>, borrowed: seq<string>, max: int, recs0: seq<Book>)
    returns (recs: seq<Book>)
    requires |recs0| < max && Distinct(recs0)
    requires forall b :: b in recs0 ==> b in books && b.isbn !in borrowed && b.author in preferred
    requires forall b :: b in books && b.isbn !in borrowed && b.author in preferred ==> Contains(recs0, b)
    ensures |recs| <= max && Distinct(recs)
    ensures forall b :: b in recs ==> b in books && b.isbn !in borrowed
    ensures AuthorsFirst(recs, preferred)
    ensures |recs| >= max || forall b :: b in books && b.isbn !in borrowed ==> Contains(recs, b)
    ensures forall b :: Contains(recs0, b) ==> Contains(recs, b)
  {
    recs := recs0;
    var k := 0;
    while k < |books|
      invariant 0 <= k <= |books|
      invariant |recs| <= max && Distinct(recs)
      invariant forall b :: b in recs ==> b in books && b.isbn !in borrowed
      invariant AuthorsFirst(recs, preferred)
      invariant forall b :: Contains(recs0, b) ==> Contains(recs, b)
      invariant |recs| >= max || forall b :: b in books[..k] && b.isbn !in borrowed ==> Contains(recs, b)
    {
      if |recs| >= max {
        break;
      }
      var book := books[k];
      assert books[..k + 1] == books[..k] + [book];
      if book.isbn !in borrowed && !Contains(recs, book) {
        assert !Contains(recs0, book);
      }
      recs := AddOther(recs, book, preferred, borrowed);
      k := k + 1;
    }
    assert books[..|books|] == books;
  }

  /**
   * One step of the second phase: the book is appended unless the patron
   * borrowed it or an equal book is listed; a book appended here is never
   * by a preferred author.
   */
  method AddOther(recs: seq<Book>, book: Book, preferred: seq<string>, borrowed: seq<string>) returns (next: seq<Book>)
    requires Distinct(recs) && AuthorsFirst(recs, preferred)
    requires book.isbn !in borrowed && !Contains(recs, book) ==> book.author !in preferred
    ensures |next| <= |recs| + 1 && Distinct(next) && AuthorsFirst(next, preferred)
    ensures forall b :: b in next ==> b in recs || (b == book && book.isbn !in borrowed)
    ensures forall b :: Contains(recs, b) ==> Contains(next, b)
    ensures book.isbn !in borrowed ==> Contains(next, book)
  {
    ContainsSnoc(recs, book);
    next := recs;
    if book.isbn !in borrowed && !Contains(recs, book) {
      AppendOtherKeepsAuthorsFirst(recs, book, preferred);
      next := recs + [book];
    }
  }
}
