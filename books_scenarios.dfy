/** The catalog filter on two sample records: a term, a category and an
    unmatched term. The case of no criteria is `Books.NoCriteriaIsIdentity`. */
module BooksScenarios {
  import opened Seqs
  import opened Text
  import opened Books

  /** Two sample records for the walk-through lemmas below. */
  const Dune := Book(1, "Dune", "Herbert", "111", "Sci-Fi", "", 1965, 1, 1, true, "")
  const Emma := Book(2, "Emma", "Austen", "222", "Classics", "", 1815, 1, 1, true, "")

  lemma DuneMatchesDu()
    ensures MatchesTerm(Dune, "du")
  {
    assert Lower(Dune.title) == "dune" && Lower("du") == "du";
    assert OccursAt(Lower(Dune.title), Lower("du"), 0);
  }

  lemma EmmaMissesDu()
    ensures !MatchesTerm(Emma, "du")
  {
    assert Lower(Emma.title) == "emma" && Lower(Emma.author) == "austen" && Lower("du") == "du";
    NotIncludedWithoutFirstChar("emma", "du");
    NotIncludedWithoutFirstChar("austen", "du");
    NotIncludedWithoutFirstChar("222", "du");
  }

  lemma DuneMissesXyz()
    ensures !MatchesTerm(Dune, "xyz")
  {
    assert Lower(Dune.title) == "dune" && Lower(Dune.author) == "herbert" && Lower("xyz") == "xyz";
    NotIncludedWithoutFirstChar("dune", "xyz");
    NotIncludedWithoutFirstChar("herbert", "xyz");
    NotIncludedWithoutFirstChar("111", "xyz");
  }

  lemma EmmaMissesXyz()
    ensures !MatchesTerm(Emma, "xyz")
  {
    assert Lower(Emma.title) == "emma" && Lower(Emma.author) == "austen" && Lower("xyz") == "xyz";
    NotIncludedWithoutFirstChar("emma", "xyz");
    NotIncludedWithoutFirstChar("austen", "xyz");
    NotIncludedWithoutFirstChar("222", "xyz");
  }

  /** A term picks the book whose title contains it, ignoring case. */
  lemma ScenarioTermPicksByTitle()
    ensures FilterBooks([Dune, Emma], "du", AllCategories) == [Dune]
  {
    DuneMatchesDu();
    EmmaMissesDu();
    var p := b => MatchesTerm(b, "du");
    assert [Dune, Emma][1..] == [Emma];
    assert Filter([Emma], p) == [];
  }

  /** A category keeps exactly the books with that label. */
  lemma ScenarioCategoryPicksByLabel()
    ensures FilterBooks([Dune, Emma], "", "Classics") == [Emma]
  {
    assert Filter([Dune, Emma], (b: Book) => b.category == "Classics") == [Emma];
  }

  /** A term found nowhere gives the empty list. */
  lemma ScenarioUnmatchedTermGivesNothing()
    ensures FilterBooks([Dune, Emma], "xyz", AllCategories) == []
  {
    DuneMissesXyz();
    EmmaMissesXyz();
    var p := b => MatchesTerm(b, "xyz");
    assert [Dune, Emma][1..] == [Emma];
    assert Filter([Emma], p) == [];
    assert Filter([Dune, Emma], p) == [];
  }
}
