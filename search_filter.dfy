/** The search-and-filter control (src/components/SearchFilter/SearchFilter.jsx):
    the search term and the selected category, the Clear button, and the
    result-count line under them. */
module SearchFilter {
  import opened Books

  /** `hasFilters`: some criterion departs from its initial value. */
  predicate HasFilters(term: string, category: string)
    ensures !HasFilters(term, category) ==> term == "" && !CategoryRestricts(category)
  {
    term != "" || category != AllCategories
  }

  /** The noun of the "N books found" line: singular only for exactly one. */
  function ResultNoun(totalResults: nat): (noun: string)
    ensures noun == "book" <==> totalResults == 1
    ensures noun == "book" || noun == "books"
  {
    if totalResults == 1 then "book" else "books"
  }

  /** Without active criteria the catalog shows every book, in order: the
      Clear button is disabled exactly when there is nothing to clear. */
  lemma NoFiltersShowsWholeCatalog(books: seq<Book>, term: string, category: string)
    requires !HasFilters(term, category)
    ensures FilterBooks(books, term, category) == books
  {
    NoCriteriaIsIdentity(books);
  }

  class FilterControls {
    var searchTerm: string
    var selectedCategory: string

    /** Both criteria start out inactive. */
    constructor ()
      ensures searchTerm == "" && selectedCategory == AllCategories
      ensures !HasFilters(searchTerm, selectedCategory)
    {
      searchTerm := "";
      selectedCategory := AllCategories;
    }

    /** The search input's onChange. */
    method SetSearchTerm(value: string)
      modifies this
      ensures searchTerm == value && selectedCategory == old(selectedCategory)
    {
      searchTerm := value;
    }

    /** The category select's onChange. */
    method SetSelectedCategory(value: string)
      modifies this
      ensures selectedCategory == value && searchTerm == old(searchTerm)
    {
      selectedCategory := value;
    }

    /** `handleClear`: both criteria back to their initial values. */
    method HandleClear()
      modifies this
      ensures searchTerm == "" && selectedCategory == AllCategories
      ensures !HasFilters(searchTerm, selectedCategory)
    {
      searchTerm := "";
      selectedCategory := AllCategories;
    }

    /** The Clear button's `disabled` attribute. */
    predicate ClearDisabled()
      reads this
      ensures ClearDisabled() <==> searchTerm == "" && selectedCategory == AllCategories
    {
      !HasFilters(searchTerm, selectedCategory)
    }
  }

  /** Clearing twice leaves the state the first clear produced. */
  method ClearTwiceIsClearOnce(c: FilterControls) returns (term: string, category: string)
    modifies c
    ensures term == "" && category == AllCategories
    ensures c.searchTerm == term && c.selectedCategory == category
  {
    c.HandleClear();
    term, category := c.searchTerm, c.selectedCategory;
    c.HandleClear();
  }
}
