/** The admin panel (src/pages/Admin/Admin.jsx): an owned list of books, the
    add-book form, and the handlers that edit the form, add a book built from it
    and delete a book by id. */
module Admin {
  import opened Wrappers
  import opened Seqs
  import opened Books

  /** The add-book form. The year is `None` while its input is empty (the
      initial `""`); numbers are taken as already parsed. */
  datatype FormData = FormData(
    title: string,
    author: string,
    isbn: string,
    category: string,
    description: string,
    publishedYear: Option<int>,
    totalCopies: int)

  /** The `name` attribute of each form input. */
  datatype FieldName = Title | Author | Isbn | Category | Description | PublishedYear | TotalCopies

  /** The value one input holds. */
  datatype FieldValue = Text(text: string) | Year(year: Option<int>) | Copies(copies: int)

  /** One change event: the input it comes from, with that input's new value. */
  datatype FieldEdit =
    | SetTitle(title: string)
    | SetAuthor(author: string)
    | SetIsbn(isbn: string)
    | SetCategory(category: string)
    | SetDescription(description: string)
    | SetPublishedYear(year: Option<int>)
    | SetTotalCopies(copies: int)

  /** The value of field `n` of `f`. */
  function Get(f: FormData, n: FieldName): FieldValue
  {
    match n
    case Title => Text(f.title)
    case Author => Text(f.author)
    case Isbn => Text(f.isbn)
    case Category => Text(f.category)
    case Description => Text(f.description)
    case PublishedYear => Year(f.publishedYear)
    case TotalCopies => Copies(f.totalCopies)
  }

  /** The field an edit targets. */
  function Target(e: FieldEdit): FieldName
  {
    match e
    case SetTitle(_) => Title
    case SetAuthor(_) => Author
    case SetIsbn(_) => Isbn
    case SetCategory(_) => Category
    case SetDescription(_) => Description
    case SetPublishedYear(_) => PublishedYear
    case SetTotalCopies(_) => TotalCopies
  }

  /** The value an edit writes. */
  function NewValue(e: FieldEdit): FieldValue
  {
    match e
    case SetTitle(s) => Text(s)
    case SetAuthor(s) => Text(s)
    case SetIsbn(s) => Text(s)
    case SetCategory(s) => Text(s)
    case SetDescription(s) => Text(s)
    case SetPublishedYear(y) => Year(y)
    case SetTotalCopies(n) => Copies(n)
  }

  /** `{ ...prev, [name]: value }`: the edited field takes the new value and
      every other field keeps its old one. */
  function ApplyEdit(f: FormData, e: FieldEdit): (g: FormData)
    ensures Get(g, Target(e)) == NewValue(e)
    ensures forall n :: n != Target(e) ==> Get(g, n) == Get(f, n)
  {
    match e
    case SetTitle(s) => f.(title := s)
    case SetAuthor(s) => f.(author := s)
    case SetIsbn(s) => f.(isbn := s)
    case SetCategory(s) => f.(category := s)
    case SetDescription(s) => f.(description := s)
    case SetPublishedYear(y) => f.(publishedYear := y)
    case SetTotalCopies(n) => f.(totalCopies := n)
  }

  /** The initial and post-submit form: empty texts, the first real category
      (index 0 is the "All Categories" sentinel), no year, one copy. */
  function DefaultForm(categories: seq<string>): (f: FormData)
    requires |categories| > 1
    ensures !Submittable(f)
    ensures f.category == categories[1] && f.totalCopies == 1 && f.publishedYear.None?
  {
    FormData("", "", "", categories[1], "", None, 1)
  }

  /** What the form's `required`, `min` and `max` attributes let through to the
      submit handler (the year's upper bound is today's year and is not modelled). */
  predicate Submittable(f: FormData)
  {
    && f.title != "" && f.author != "" && f.isbn != "" && f.category != "" && f.description != ""
    && f.publishedYear.Some? && f.publishedYear.value >= 1000
    && 1 <= f.totalCopies <= 50
  }

  /** The ids of a list of books, in list order (`books.map((b) => b.id)`). */
  function Ids(books: seq<Book>): (ids: seq<int>)
    ensures |ids| == |books|
    ensures forall i :: 0 <= i < |books| ==> ids[i] == books[i].id
  {
    if books == [] then [] else [books[0].id] + Ids(books[1..])
  }

  /** The largest of a non-empty list of ids. */
  function Max(ids: seq<int>): (m: int)
    requires ids != []
    ensures m in ids
    ensures forall x :: x in ids ==> x <= m
  {
    if |ids| == 1 then ids[0]
    else
      var rest := Max(ids[1..]);
      assert ids == [ids[0]] + ids[1..];
      if ids[0] > rest then ids[0] else rest
  }

  /** The id given to a new book: one more than the largest id, and 1 for an
      empty list (see NextIdAsWritten for what the handler computes there). */
  function NextId(ids: seq<int>): (id: int)
    ensures forall x :: x in ids ==> x < id
  {
    if ids == [] then 1 else Max(ids) + 1
  }

  /** No two books share an id. */
  ghost predicate DistinctIds(books: seq<Book>)
  {
    forall i, j :: 0 <= i < j < |books| ==> books[i].id != books[j].id
  }

  /** Every book's copy counts satisfy 0 <= available <= total. */
  ghost predicate CopiesConsistent(books: seq<Book>)
  {
    forall b :: b in books ==> 0 <= b.availableCopies <= b.totalCopies
  }

  /** The prefix of every generated cover URL; the title is appended after
      `encodeURIComponent`, which is a parameter here. */
  const CoverPrefix: string := "/placeholder.svg?height=300&width=200&query="

  /** The record the submit handler builds from the form. */
  function NewBook(id: int, f: FormData, encode: string -> string): (b: Book)
    requires f.publishedYear.Some?
    ensures b.available && b.availableCopies == b.totalCopies
    ensures Submittable(f) ==> 0 < b.availableCopies <= b.totalCopies <= 50
  {
    Book(id, f.title, f.author, f.isbn, f.category, f.description, f.publishedYear.value,
         f.totalCopies, f.totalCopies, true, CoverPrefix + encode(f.title + " book cover"))
  }

  /** `books.find((b) => b.id === id)`: the first book with that id. */
  function FindById(books: seq<Book>, id: int): (r: Option<Book>)
    ensures r.None? <==> forall b :: b in books ==> b.id != id
    ensures r.Some? ==> exists i :: 0 <= i < |books| && books[i] == r.value && r.value.id == id
                                     && forall j :: 0 <= j < i ==> books[j].id != id
  {
    if books == [] then None
    else if books[0].id == id then Some(books[0])
    else
      var r := FindById(books[1..], id);
      if r.Some? then
        var i :| 0 <= i < |books[1..]| && books[1..][i] == r.value && r.value.id == id
                 && forall j :: 0 <= j < i ==> books[1..][j].id != id;
        assert books[i + 1] == r.value;
        r
      else r
  }

  /** `books.filter((b) => b.id !== id)`. */
  function RemoveById(books: seq<Book>, id: int): (r: seq<Book>)
    ensures forall b :: b in r <==> b in books && b.id != id
    ensures |r| <= |books|
  {
    Filter(books, (b: Book) => b.id != id)
  }

  /** The confirmation messages (cleared by a timer that is not modelled). */
  function AddedMessage(title: string): string
  {
    "\"" + title + "\" has been added to the library!"
  }

  function RemovedMessage(title: string): string
  {
    "\"" + title + "\" has been removed from the library."
  }

  class AdminPanel {
    const categories: seq<string>
    var books: seq<Book>
    var formData: FormData
    var successMessage: string

    /** The catalog's own invariant: unique ids and consistent copy counts. */
    ghost predicate Valid()
      reads this
    {
      |categories| > 1 && DistinctIds(books) && CopiesConsistent(books)
    }

    /** The panel as first rendered: the seed books, a default form, no message. */
    constructor (initialBooks: seq<Book>, categories: seq<string>)
      requires |categories| > 1 && DistinctIds(initialBooks) && CopiesConsistent(initialBooks)
      ensures Valid()
      ensures this.categories == categories && books == initialBooks
      ensures formData == DefaultForm(categories) && successMessage == ""
    {
      this.categories := categories;
      books := initialBooks;
      formData := DefaultForm(categories);
      successMessage := "";
    }

    /** `handleInputChange`: exactly one form field changes. */
    method HandleInputChange(e: FieldEdit)
      requires Valid()
      modifies this
      ensures Valid()
      ensures formData == ApplyEdit(old(formData), e)
      ensures books == old(books) && successMessage == old(successMessage)
    {
      formData := ApplyEdit(formData, e);
    }

    /** `handleSubmit`: append a book with a fresh id and as many available
        copies as total copies, announce it, and reset the form. */
    method HandleSubmit(encode: string -> string)
      requires Valid() && Submittable(formData)
      modifies this
      ensures Valid()
      ensures |books| == |old(books)| + 1 && books[..|old(books)|] == old(books)
      ensures books[|old(books)|] == NewBook(NextId(Ids(old(books))), old(formData), encode)
      ensures forall b :: b in old(books) ==> b.id != books[|old(books)|].id
      ensures formData == DefaultForm(categories)
      ensures successMessage == AddedMessage(old(formData).title)
    {
      var book := NewBook(NextId(Ids(books)), formData, encode);
      FreshIdIsNew(books);
      NewBookKeepsCatalogValid(books, formData, encode);
      books := books + [book];
      successMessage := AddedMessage(formData.title);
      formData := DefaultForm(categories);
    }

    /** `handleDeleteBook`: the book must be listed (its title is read before
        asking); on confirmation every book with that id is removed. */
    method HandleDeleteBook(id: int, confirmed: bool)
      requires Valid() && FindById(books, id).Some?
      modifies this
      ensures Valid()
      ensures books == if confirmed then RemoveById(old(books), id) else old(books)
      ensures successMessage == if confirmed then RemovedMessage(FindById(old(books), id).value.title)
                                else old(successMessage)
      ensures formData == old(formData)
    {
      var bookToDelete := FindById(books, id).value;
      if confirmed {
        RemoveKeepsDistinctIds(books, id);
        books := RemoveById(books, id);
        successMessage := RemovedMessage(bookToDelete.title);
      }
    }
  }

  /** The id computed for a new book differs from every listed id. */
  lemma FreshIdIsNew(books: seq<Book>)
    ensures forall b :: b in books ==> b.id != NextId(Ids(books))
  {
    forall b | b in books
      ensures b.id != NextId(Ids(books))
    {
      var i :| 0 <= i < |books| && books[i] == b;
      assert Ids(books)[i] == b.id && Ids(books)[i] in Ids(books);
    }
  }

  /** Removing by id leaves unique ids unique. */
  lemma {:induction false} RemoveKeepsDistinctIds(books: seq<Book>, id: int)
    requires DistinctIds(books)
    ensures DistinctIds(RemoveById(books, id))
  {
    if books != [] {
      RemoveKeepsDistinctIds(books[1..], id);
      var rest := RemoveById(books[1..], id);
      if books[0].id != id {
        forall j | 0 <= j < |rest|
          ensures rest[j].id != books[0].id
        {
          assert rest[j] in books[1..];
          var k :| 0 <= k < |books[1..]| && books[1..][k] == rest[j];
          assert books[k + 1] == rest[j];
        }
        assert RemoveById(books, id) == [books[0]] + rest;
      }
    }
  }

  /** A confirmed delete keeps exactly the books with other ids, in their order. */
  lemma RemoveByIdKeepsOthersInOrder(books: seq<Book>, id: int)
    ensures forall b :: b in RemoveById(books, id) <==> b in books && b.id != id
    ensures IsSubsequence(RemoveById(books, id), books)
  {
    FilterIsSubsequence(books, (b: Book) => b.id != id);
  }

  /** With unique ids, exactly one listed book carries a given listed id. */
  lemma {:induction false} OneBookPerId(books: seq<Book>, id: int)
    requires DistinctIds(books) && FindById(books, id).Some?
    ensures CountFailing(books, (b: Book) => b.id != id) == 1
  {
    var p := (b: Book) => b.id != id;
    if books[0].id == id {
      forall b | b in books[1..]
        ensures p(b)
      {
        var k :| 0 <= k < |books[1..]| && books[1..][k] == b;
        assert books[k + 1] == b;
      }
      FilterKeepsAll(books[1..], p);
      FilterLength(books[1..], p);
    } else {
      OneBookPerId(books[1..], id);
    }
  }

  /** With unique ids, a confirmed delete of a listed id shortens the list by one. */
  lemma RemoveByIdRemovesOne(books: seq<Book>, id: int)
    requires DistinctIds(books) && FindById(books, id).Some?
    ensures |RemoveById(books, id)| == |books| - 1
  {
    OneBookPerId(books, id);
    FilterLength(books, (b: Book) => b.id != id);
  }

  /** Appending a book whose id no listed book has keeps ids unique. */
  lemma AppendFreshKeepsDistinctIds(books: seq<Book>, b: Book)
    requires DistinctIds(books)
    requires forall x :: x in books ==> x.id != b.id
    ensures DistinctIds(books + [b])
  {
    var all := books + [b];
    forall i, j | 0 <= i < j < |all|
      ensures all[i].id != all[j].id
    {
      if j == |books| {
        assert all[i] in books;
      }
    }
  }

  /** The submitted book has all its copies available, so appending it keeps
      copy counts consistent; its fresh id keeps ids unique. */
  lemma NewBookKeepsCatalogValid(books: seq<Book>, f: FormData, encode: string -> string)
    requires DistinctIds(books) && CopiesConsistent(books) && Submittable(f)
    ensures NewBook(NextId(Ids(books)), f, encode).available
    ensures NewBook(NextId(Ids(books)), f, encode).availableCopies == f.totalCopies
    ensures NewBook(NextId(Ids(books)), f, encode).totalCopies == f.totalCopies
    ensures DistinctIds(books + [NewBook(NextId(Ids(books)), f, encode)])
    ensures CopiesConsistent(books + [NewBook(NextId(Ids(books)), f, encode)])
  {
    FreshIdIsNew(books);
    AppendFreshKeepsDistinctIds(books, NewBook(NextId(Ids(books)), f, encode));
  }

  /** Numbers as JavaScript's Math.max sees them: -Infinity or a finite integer. */
  datatype ExtInt = NegInfinity | Finite(n: int)

  /** The larger of two numbers; -Infinity only when both are. */
  function ExtMax(a: ExtInt, b: ExtInt): (m: ExtInt)
    ensures m == a || m == b
    ensures m == NegInfinity <==> a == NegInfinity && b == NegInfinity
  {
    match (a, b)
    case (NegInfinity, _) => b
    case (_, NegInfinity) => a
    case (Finite(x), Finite(y)) => if x >= y then a else b
  }

  /** `Math.max(...xs)`: -Infinity for no arguments. */
  function MaxAsWritten(xs: seq<ExtInt>): (m: ExtInt)
    ensures m == NegInfinity <==> forall i :: 0 <= i < |xs| ==> xs[i] == NegInfinity
  {
    if xs == [] then NegInfinity
    else
      var rest := MaxAsWritten(xs[1..]);
      assert forall i :: 1 <= i < |xs| ==> xs[i] == xs[1..][i - 1];
      ExtMax(xs[0], rest)
  }

  /** `x + 1`, where -Infinity + 1 is -Infinity; finite ids are taken as exact
      integers (no rounding above 2^53 - 1). */
  function PlusOne(x: ExtInt): ExtInt
  {
    match x
    case NegInfinity => NegInfinity
    case Finite(n) => Finite(n + 1)
  }

  /** The id expression of `handleSubmit` as written: `Math.max(...ids) + 1`. */
  function NextIdAsWritten(ids: seq<ExtInt>): (id: ExtInt)
    ensures id == NegInfinity <==> forall i :: 0 <= i < |ids| ==> ids[i] == NegInfinity
  {
    PlusOne(MaxAsWritten(ids))
  }

  function Finites(ids: seq<int>): (xs: seq<ExtInt>)
    ensures |xs| == |ids|
    ensures forall i :: 0 <= i < |ids| ==> xs[i] == Finite(ids[i])
  {
    if ids == [] then [] else [Finite(ids[0])] + Finites(ids[1..])
  }

  /** On a non-empty list the expression as written and NextId agree. */
  lemma {:induction false} AsWrittenAgreesOnNonEmpty(ids: seq<int>)
    requires ids != []
    ensures NextIdAsWritten(Finites(ids)) == Finite(NextId(ids))
  {
    MaxAsWrittenOfFinites(ids);
  }

  lemma {:induction false} MaxAsWrittenOfFinites(ids: seq<int>)
    requires ids != []
    ensures MaxAsWritten(Finites(ids)) == Finite(Max(ids))
  {
    assert Finites(ids)[1..] == Finites(ids[1..]);
    if |ids| > 1 {
      MaxAsWrittenOfFinites(ids[1..]);
    }
  }

  /** On an empty list (every book deleted) the expression as written yields
      -Infinity, which is no id; the next submit yields -Infinity again, so two
      books then share an id. */
  lemma AsWrittenFailsOnEmptyList()
    ensures NextIdAsWritten([]) == NegInfinity
    ensures NextIdAsWritten([NegInfinity]) == NegInfinity
  {
  }
}
