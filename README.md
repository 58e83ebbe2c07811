# St Paul's e-library catalog: a Dafny model

This project models the logic of a browser-side library catalog. The catalog
shows a list of book records. The user narrows the list with a free-text
search term and a category selector. An admin panel adds and deletes books
in an in-memory list. Three parts are modelled:

- **Catalog filter** (`Books` module; `filterBooks` in `src/pages/Books/Books.jsx`).
  The filter is a pure function of the book list, the search term and the
  selected category. It returns the matching books in catalog order. A book
  matches the term when one of these holds:
  - the lower-cased term is inside the lower-cased title;
  - the lower-cased term is inside the lower-cased author;
  - the term, exactly as typed, is inside the ISBN.

  A category that is non-empty and not `"All Categories"` must also equal the
  book's category exactly. It is built on `Seqs.Filter` (`Array.prototype.filter`)
  and on `Text.Lower` / `Text.Includes` (`toLowerCase` / `includes`).
- **Admin panel** (`Admin` module, class `AdminPanel`; `src/pages/Admin/Admin.jsx`).
  The panel owns a `seq<Book>`, the add-book form and the success message.
  - `HandleInputChange` overwrites one form field.
  - `HandleSubmit` appends a book built from the form. Its id is the largest id
    plus one, and all of its copies are available. Then it resets the form.
  - `HandleDeleteBook` removes every book with the given id, but only when the
    user confirmed.

  The class invariant `Valid()` states that ids are unique and that
  `0 <= availableCopies <= totalCopies` holds for every book. Every handler
  preserves it.
- **Search/filter controls** (`SearchFilter` module, class `FilterControls`;
  `src/components/SearchFilter/SearchFilter.jsx`). This part holds the term and
  the category, the Clear handler, `hasFilters` and the Clear button's
  `disabled` state. It also holds the singular/plural noun of the
  "N books found" line.

The sample records in `BooksScenarios` show the filter on two books. They cover
a term that matches one title, a category, and a term that matches nothing.

All files are verified together:
`dafny verify wrappers.dfy seqs.dfy text.dfy books.dfy books_scenarios.dfy admin.dfy search_filter.dfy`.

Two details of the code deserve a note:
- `hasFilters` counts an empty category as a filter, because `"" !== "All Categories"`.
  `filterBooks`, however, treats an empty category as no constraint. The
  model keeps both as written. The model assumes that the seed category list
  has no `""` entry, so the select never offers it and the two never meet.
- Book ids are meant to be unique. The code keeps them unique only while the
  list is non-empty. `HandleSubmit` uses the intended fresh id (`NextId`). The
  id expression as written is modelled separately (`NextIdAsWritten`). See
  Findings.

## Model

| member | source | states |
|---|---|---|
| Seqs.Filter | src/pages/Books/Books.jsx:33-43 | `Array.filter`: an element is in the result exactly when it is in the input and passes the predicate; the result is never longer than the input |
| Seqs.FilterIsSubsequence | src/pages/Books/Books.jsx:33-43 | a filter never reorders: its result is a subsequence of its input |
| Seqs.FilterKeepsAll | src/pages/Books/Books.jsx:29-44 | a filter whose predicate every element passes returns the input unchanged |
| Seqs.FilterCommutes | src/pages/Books/Books.jsx:32-44 | two filters give the same sequence in either order |
| Seqs.FilterLength | src/pages/Admin/Admin.jsx:73 | a filter drops exactly as many elements as fail the predicate |
| Seqs.SubsequenceTransitive | src/pages/Books/Books.jsx:29-44 | a subsequence of a subsequence is a subsequence, so two chained filters keep catalog order |
| Text.Lower | src/pages/Books/Books.jsx:35-36 | lower-casing keeps the length and maps each character to its lower-case form (ASCII letters only) |
| Text.IncludesLower | src/pages/Books/Books.jsx:35-37 | a case-sensitive match still holds after both strings are lower-cased |
| Text.NotIncludedWithoutFirstChar | src/pages/Books/Books.jsx:35-37 | `includes` fails when the needle's first character does not occur in the hay |
| Books.FilterBooks | src/pages/Books/Books.jsx:28-47 | a book is in the result exactly when it is in the input and passes both criteria (an empty term and a non-restricting category impose nothing); the result is never longer than the input |
| Books.MatchesTerm | src/pages/Books/Books.jsx:34-37 | the term predicate (lower-cased term in lower-cased title or author, or literal term in the ISBN); an empty term matches every book |
| Books.CategoryRestricts | src/pages/Books/Books.jsx:42 | a category constrains the list exactly when it is truthy (non-empty) and not `"All Categories"` |
| Books.FilterBooksIsOneFilter | src/pages/Books/Books.jsx:29-44 | the two filter stages equal one filter by the combined criteria, so every shown book appears as often as in the list and in list order (nothing is deduplicated) |
| Books.FilterBooksIsSubsequence | src/pages/Books/Books.jsx:29-44 | the result is an order-preserving subsequence of the book list |
| Books.NoCriteriaIsIdentity | src/pages/Books/Books.jsx:29-44 | an empty term with `"All Categories"` returns the whole list in the same order |
| Books.EmptyCategoryIsAllCategories | src/pages/Books/Books.jsx:42 | an empty (falsy) category gives the same result as `"All Categories"` |
| Books.TermSoundness | src/pages/Books/Books.jsx:32-38 | with a non-empty term, every shown book has the lower-cased term in its lower-cased title or author, or the literal term in its ISBN |
| Books.CategorySoundness | src/pages/Books/Books.jsx:42-43 | with a restricting category, every shown book has exactly that category |
| Books.Completeness | src/pages/Books/Books.jsx:32-44 | every listed book that meets the term and category conditions is shown |
| Books.FilterOrderIrrelevant | src/pages/Books/Books.jsx:32-44 | filtering by category first and by term second gives the same sequence |
| Books.TitleOrAuthorIgnoresCase | src/pages/Books/Books.jsx:35-36 | two terms with the same lower-case form match the same titles and authors |
| Books.IsbnIsCaseSensitive | src/pages/Books/Books.jsx:35-37 | for any book whose title equals its ISBN, a term that differs from that text only in letter case matches the title but not the ISBN |
| BooksScenarios.ScenarioTermPicksByTitle | src/pages/Books/Books.jsx:32-38 | on [Dune, Emma], the term "du" shows only Dune |
| BooksScenarios.ScenarioCategoryPicksByLabel | src/pages/Books/Books.jsx:42-43 | on [Dune, Emma], the category "Classics" shows only Emma |
| BooksScenarios.ScenarioUnmatchedTermGivesNothing | src/pages/Books/Books.jsx:32-38 | on [Dune, Emma], the term "xyz" shows nothing |
| Admin.ApplyEdit | src/pages/Admin/Admin.jsx:31-37 | the edited field takes the new value and every other field keeps its value |
| Admin.DefaultForm | src/pages/Admin/Admin.jsx:12-20 | the initial and reset form: category `categories[1]`, one copy, no year; it cannot be submitted until the required fields are filled in |
| Admin.Submittable | src/pages/Admin/Admin.jsx:109-219 | what the inputs' `required`, `min` and `max` attributes let through to the submit handler: non-empty texts, a year of at least 1000, 1 to 50 copies |
| Admin.Ids | src/pages/Admin/Admin.jsx:43 | `books.map((b) => b.id)` has one id per book, in order |
| Admin.Max | src/pages/Admin/Admin.jsx:43 | the maximum is one of the ids and no id exceeds it |
| Admin.NextId | src/pages/Admin/Admin.jsx:43 | the new id is greater than every existing id |
| Admin.FreshIdIsNew | src/pages/Admin/Admin.jsx:43 | no listed book has the new book's id |
| Admin.NewBook | src/pages/Admin/Admin.jsx:42-50 | the built book is available with all its copies available; from a submittable form, 0 < available = total <= 50 |
| Admin.AppendFreshKeepsDistinctIds | src/pages/Admin/Admin.jsx:52 | appending a book whose id is not listed keeps ids unique |
| Admin.NewBookKeepsCatalogValid | src/pages/Admin/Admin.jsx:42-52 | the new book is available and its available copies equal its total copies (taken from the form); appending it keeps ids unique and copy counts consistent |
| Admin.FindById | src/pages/Admin/Admin.jsx:71 | `find` returns nothing exactly when no book has the id; otherwise it returns the first book with that id |
| Admin.RemoveById | src/pages/Admin/Admin.jsx:73 | `filter((b) => b.id !== bookId)`: a book remains exactly when it was listed and has another id; the list never grows |
| Admin.RemoveByIdKeepsOthersInOrder | src/pages/Admin/Admin.jsx:73 | after a delete, a book remains exactly when it was listed and has another id; the rest keep their order |
| Admin.OneBookPerId | src/pages/Admin/Admin.jsx:71-73 | with unique ids, exactly one book carries a listed id |
| Admin.RemoveByIdRemovesOne | src/pages/Admin/Admin.jsx:73 | with unique ids, deleting a listed id shortens the list by exactly one |
| Admin.RemoveKeepsDistinctIds | src/pages/Admin/Admin.jsx:73 | deleting keeps ids unique |
| Admin.AdminPanel.constructor | src/pages/Admin/Admin.jsx:9-20 | the panel starts with the seed books, no message and the default form (empty texts, `categories[1]`, one copy) |
| Admin.AdminPanel.HandleInputChange | src/pages/Admin/Admin.jsx:31-37 | only the form changes, by exactly one field |
| Admin.AdminPanel.HandleSubmit | src/pages/Admin/Admin.jsx:39-68 | exactly one book is appended and the earlier books are unchanged and in order; the new book is built from the form, its id is new, and it keeps the invariant; the form is back to its defaults; the message names the title |
| Admin.AdminPanel.HandleDeleteBook | src/pages/Admin/Admin.jsx:70-77 | the id must be listed; if confirmed, every book with it is removed and the message names the title of the first one; otherwise the list and the message stay as they were; the form never changes |
| Admin.ExtMax | src/pages/Admin/Admin.jsx:43 | the larger of two JavaScript numbers is one of them, and -Infinity only when both are |
| Admin.MaxAsWritten | src/pages/Admin/Admin.jsx:43 | `Math.max(...xs)` is -Infinity exactly when every argument is -Infinity, including when there are none |
| Admin.NextIdAsWritten | src/pages/Admin/Admin.jsx:43 | `Math.max(...ids) + 1` as written is -Infinity exactly when every id is -Infinity, in particular for an empty list |
| Admin.MaxAsWrittenOfFinites | src/pages/Admin/Admin.jsx:43 | on finite ids, `Math.max` as written gives the same maximum as Max |
| Admin.AsWrittenAgreesOnNonEmpty | src/pages/Admin/Admin.jsx:43 | on a non-empty list, `Math.max(...ids) + 1` as written equals NextId |
| Admin.AsWrittenFailsOnEmptyList | src/pages/Admin/Admin.jsx:43 | on an empty list, `Math.max(...ids) + 1` as written is -Infinity, and stays -Infinity on the next add |
| SearchFilter.HasFilters | src/components/SearchFilter/SearchFilter.jsx:24 | `hasFilters`: true when the term is non-empty or the category is not `"All Categories"`; when false, neither criterion constrains the catalog filter |
| SearchFilter.ResultNoun | src/components/SearchFilter/SearchFilter.jsx:81 | the noun is "book" exactly when the count is 1, and "books" otherwise, including 0 |
| SearchFilter.NoFiltersShowsWholeCatalog | src/components/SearchFilter/SearchFilter.jsx:19-24 | whenever `hasFilters` is false (initially, and after Clear), the catalog shows every book in order |
| SearchFilter.FilterControls.constructor | src/components/SearchFilter/SearchFilter.jsx:8-9 | the term starts empty and the category at `"All Categories"`, so `hasFilters` is false |
| SearchFilter.FilterControls.SetSearchTerm | src/components/SearchFilter/SearchFilter.jsx:38 | the term takes the typed value and the category is unchanged |
| SearchFilter.FilterControls.SetSelectedCategory | src/components/SearchFilter/SearchFilter.jsx:54 | the category takes the chosen value and the term is unchanged |
| SearchFilter.FilterControls.HandleClear | src/components/SearchFilter/SearchFilter.jsx:19-22 | the term becomes `""` and the category `"All Categories"`, so `hasFilters` is false |
| SearchFilter.FilterControls.ClearDisabled | src/components/SearchFilter/SearchFilter.jsx:71 | the Clear button is disabled exactly when the term is empty and the category is `"All Categories"` |
| SearchFilter.ClearTwiceIsClearOnce | src/components/SearchFilter/SearchFilter.jsx:19-22 | returns the state after a first Clear and ensures a second Clear leaves exactly that state |

## Left out

- Rendering, CSS, icons and the lazy loading of `BookCard` are not modelled. They are presentation only.
- The simulated loading delays and the timer that clears the success message are not modelled. They are timing effects. The message is set but never cleared.
- The effects that push the controls' state to the catalog page through `onSearch`/`onFilter` are not modelled. The filter is a function of (books, term, category) instead.
- `window.confirm` is not modelled. Its outcome is the `confirmed` parameter of `HandleDeleteBook`.
- `Number.parseInt` of the form's year and copy count is not modelled. The form holds them as already-parsed numbers. An empty year is `None`.
- `encodeURIComponent` is not modelled. It is the `encode` parameter of `HandleSubmit`. The cover URL's fixed prefix is modelled.
- Admin.AdminPanel.HandleSubmit: on an empty book list the code assigns the id -Infinity; the model assigns 1 (NextId), the fresh id the code evidently intends (see Findings; the expression as written is NextIdAsWritten).
- Text.Lower: lower-cases ASCII letters only, because JavaScript's full Unicode `toLowerCase` (locale-independent case mapping, length-changing mappings) has no counterpart here.
- The year input's upper bound, the current year, is not modelled. It reads the clock. The other `required`/`min`/`max` checks of the form are the `Submittable` precondition of `HandleSubmit`.
- The seed data module `mockData` is not part of this model. The book list and the category list are inputs. The seed list is assumed to have unique ids and consistent copy counts, and the seed category list is assumed to hold no empty entry.
- Admin.NextId: book ids are JavaScript numbers but are modelled as unbounded integers. The model assumes every id stays at or below `Number.MAX_SAFE_INTEGER` (2^53 - 1). Above it, `x + 1` may round back to `x`, so `Math.max(...ids) + 1` could repeat an id. `FreshIdIsNew`, `NextIdAsWritten` and `AsWrittenAgreesOnNonEmpty` describe the code only under that assumption.
- `src/pages/Dashboard/Dashboard.jsx`, `src/pages/BookDetail/BookDetail.jsx`, `src/components/Navigation/Navigation.jsx`, `src/components/BookCard/BookCard.jsx`, `src/components/Loading/Loading.jsx` and `src/App.jsx` are not modelled. They hold presentation, routing, date formatting and a single `find`.
- The decimal rendering of the count in "N books found" is not modelled. Only the noun is.

## Findings

| source | as written | input that shows it | evidently intended | confidence | as-written member | corrected member |
|---|---|---|---|---|---|---|
| src/pages/Admin/Admin.jsx:43 | the new id is `Math.max(...books.map((b) => b.id)) + 1`, and `Math.max()` with no arguments is -Infinity | delete every book, then add one: its id is -Infinity; add another: its id is -Infinity again, so two books share an id and one delete removes both | a finite id greater than every listed id (1 for an empty list), so ids stay unique | not executed | Admin.AsWrittenFailsOnEmptyList | Admin.NextId |
