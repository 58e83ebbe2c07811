/** The catalog view's filter (src/pages/Books/Books.jsx, `filterBooks`): the
    books whose title, author or ISBN contain the search term and whose category
    is the selected one, in catalog order. */
module Books {
  import opened Seqs
  import opened Text

  /** A catalog record, with the fields the admin panel fills in. */
  datatype Book = Book(
    id: int,
    title: string,
    author: string,
    isbn: string,
    category: string,
    description: string,
    publishedYear: int,
    totalCopies: int,
    availableCopies: int,
    available: bool,
    coverImage: string)

  /** The category label that stands for "no category filter". */
  const AllCategories: string := "All Categories"

  /** Title or author contain the term, ignoring case. */
  predicate TitleOrAuthorMatch(b: Book, term: string)
  {
    Includes(Lower(b.title), Lower(term)) || Includes(Lower(b.author), Lower(term))
  }

  /** The ISBN contains the term exactly as typed. */
  predicate IsbnMatch(b: Book, term: string)
  {
    Includes(b.isbn, term)
  }

  /** The search predicate of the first `filter` call. */
  predicate MatchesTerm(b: Book, term: string)
    ensures term == "" ==> MatchesTerm(b, term)
  {
    assert term == "" ==> OccursAt(b.isbn, term, 0);
    TitleOrAuthorMatch(b, term) || IsbnMatch(b, term)
  }

  /** A category restricts the list when it is truthy (non-empty) and not the sentinel. */
  predicate CategoryRestricts(category: string)
  {
    category != "" && category != AllCategories
  }

  /** The first step: only a non-empty term filters. */
  function ByTerm(books: seq<Book>, term: string): seq<Book>
  {
    if term != "" then Filter(books, b => MatchesTerm(b, term)) else books
  }

  /** The second step: only a restricting category filters, by exact equality. */
  function ByCategory(books: seq<Book>, category: string): seq<Book>
  {
    if CategoryRestricts(category) then Filter(books, (b: Book) => b.category == category) else books
  }

  /** Whether one book is shown for the given search term and category. */
  predicate Shown(b: Book, term: string, category: string)
  {
    (term == "" || MatchesTerm(b, term)) && (!CategoryRestricts(category) || b.category == category)
  }

  /** `filterBooks`: the term filter followed by the category filter. */
  function FilterBooks(books: seq<Book>, term: string, category: string): (r: seq<Book>)
    ensures |r| <= |books|
    ensures forall b :: b in r <==> b in books && Shown(b, term, category)
  {
    ByCategory(ByTerm(books, term), category)
  }

  /** The result keeps the catalog order: it is a subsequence of the input. */
  lemma FilterBooksIsSubsequence(books: seq<Book>, term: string, category: string)
    ensures IsSubsequence(FilterBooks(books, term, category), books)
  {
    var afterTerm := ByTerm(books, term);
    if term != "" {
      FilterIsSubsequence(books, b => MatchesTerm(b, term));
    } else {
      SubsequenceOfSelf(books);
    }
    if CategoryRestricts(category) {
      FilterIsSubsequence(afterTerm, (b: Book) => b.category == category);
    } else {
      SubsequenceOfSelf(afterTerm);
    }
    SubsequenceTransitive(FilterBooks(books, term, category), afterTerm, books);
  }

  /** With no term and the sentinel category, the full list comes back unchanged. */
  lemma NoCriteriaIsIdentity(books: seq<Book>)
    ensures FilterBooks(books, "", AllCategories) == books
  {
  }

  /** A falsy (empty) category behaves exactly like the sentinel. */
  lemma EmptyCategoryIsAllCategories(books: seq<Book>, term: string)
    ensures FilterBooks(books, term, "") == FilterBooks(books, term, AllCategories)
  {
  }

  /** Every book shown for a non-empty term has the lower-cased term inside its
      lower-cased title or author, or the term itself inside its ISBN. */
  lemma TermSoundness(books: seq<Book>, term: string, category: string)
    requires term != ""
    ensures forall b :: b in FilterBooks(books, term, category) ==>
              || Includes(Lower(b.title), Lower(term))
              || Includes(Lower(b.author), Lower(term))
              || Includes(b.isbn, term)
  {
  }

  /** Every book shown for a restricting category has exactly that category. */
  lemma CategorySoundness(books: seq<Book>, term: string, category: string)
    requires CategoryRestricts(category)
    ensures forall b :: b in FilterBooks(books, term, category) ==> b.category == category
  {
  }

  /** Every catalog book meeting both criteria is shown. */
  lemma Completeness(books: seq<Book>, term: string, category: string, b: Book)
    requires b in books
    requires term == "" || MatchesTerm(b, term)
    requires !CategoryRestricts(category) || b.category == category
    ensures b in FilterBooks(books, term, category)
  {
  }

  /** Filtering by category first and by term second gives the same list. */
  lemma FilterOrderIrrelevant(books: seq<Book>, term: string, category: string)
    ensures FilterBooks(books, term, category) == ByTerm(ByCategory(books, category), term)
  {
    if term != "" && CategoryRestricts(category) {
      FilterCommutes(books, b => MatchesTerm(b, term), (b: Book) => b.category == category);
    }
  }

  /** Title and author matching only sees the lower-cased term. */
  lemma TitleOrAuthorIgnoresCase(b: Book, term1: string, term2: string)
    requires Lower(term1) == Lower(term2)
    ensures TitleOrAuthorMatch(b, term1) <==> TitleOrAuthorMatch(b, term2)
  {
  }

  /** ISBN matching is case-sensitive: when a book's title equals its ISBN, a
      term that differs from that text only in letter case matches the title
      but not the ISBN. */
  lemma IsbnIsCaseSensitive(b: Book, term: string)
    requires b.title == b.isbn && Lower(term) == Lower(b.isbn) && term != b.isbn
    ensures TitleOrAuthorMatch(b, term) && !IsbnMatch(b, term)
  {
    assert OccursAt(Lower(b.title), Lower(term), 0);
  }

  /** The two filter stages together are one filter by Shown: the result holds
      every shown book, each as often as in the list, in list order. */
  lemma {:induction false} FilterBooksIsOneFilter(books: seq<Book>, term: string, category: string)
    ensures FilterBooks(books, term, category) == Filter(books, b => Shown(b, term, category))
  {
    if books != [] {
      FilterBooksIsOneFilter(books[1..], term, category);
      var x := books[0];
      var byTerm := b => MatchesTerm(b, term);
      var byCat := (b: Book) => b.category == category;
      assert ByTerm(books, term) == (if term == "" || MatchesTerm(x, term) then [x] else []) + ByTerm(books[1..], term);
      var t := ByTerm(books, term);
      if term == "" || MatchesTerm(x, term) {
        assert t[0] == x && t[1..] == ByTerm(books[1..], term);
        assert ByCategory(t, category) == (if !CategoryRestricts(category) || x.category == category then [x] else []) + ByCategory(t[1..], category);
      }
    }
  }
}
