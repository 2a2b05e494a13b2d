/**
 * frontend/pages/library.js: the featured book and the filtered grid. The
 * effect runs on mount and whenever the filter changes; it picks the
 * featured book, shows the spinner and arms a timer, and the timer stores the
 * selection. Timer cancellation on re-run is modelled as the pending timer
 * being replaced.
 */
module Library {
  import opened Wrappers
  import opened Lists

  /** The fields of a book the page reads; the rest is only rendered. */
  datatype Book = Book(id: int, title: string, category: string)

  /** `book => book.category === c`. */
  function InCategory(c: string): Book -> bool
  {
    (b: Book) => b.category == c
  }

  /** The selection the timer stores: everything but the featured book for `'all'`, otherwise that category's books. */
  function SelectBooks(books: seq<Book>, activeFilter: string): (r: seq<Book>)
    ensures activeFilter == "all" ==> r == Rest(books)
    ensures activeFilter != "all" ==> forall b :: b in r <==> b in books && b.category == activeFilter
    ensures activeFilter != "all" ==>
              forall b :: multiset(r)[b] == if b.category == activeFilter then multiset(books)[b] else 0
    ensures SubseqOf(r, books)
    ensures activeFilter != "all" && |books| > 0 && books[0].category == activeFilter ==>
              |r| > 0 && r[0] == books[0]
  {
    if activeFilter == "all" then
      RestSubseq(books);
      Rest(books)
    else
      FilterSubseq(books, InCategory(activeFilter));
      FilterCount(books, InCategory(activeFilter));
      Filter(books, InCategory(activeFilter))
  }

  /** The page state: the filter, the stored list, the spinner flag, the featured book and whether a timer is armed. */
  class LibraryPage {
    const books: seq<Book>
    var activeFilter: string
    var filteredBooks: seq<Book>
    var isLoading: bool
    var featuredBook: Option<Book>
    var timerPending: bool

    /** After every completed step, the featured book is `books[0]`, the spinner is up exactly while a timer is armed, and once it is down the grid shows the current filter's selection. */
    predicate Valid()
      reads this
    {
      featuredBook == First(books) &&
      isLoading == timerPending &&
      (!isLoading ==> filteredBooks == SelectBooks(books, activeFilter))
    }

    /** Mount: the initial state followed by the first run of the effect. */
    constructor(books: seq<Book>)
      ensures Valid()
      ensures this.books == books && activeFilter == "all" && filteredBooks == []
      ensures isLoading && timerPending && featuredBook == First(books)
    {
      this.books := books;
      activeFilter := "all";
      filteredBooks := [];
      isLoading := true;
      featuredBook := None;
      timerPending := false;
      new;
      RunEffect();
    }

    /** The effect body up to `setTimeout`. */
    method RunEffect()
      modifies this
      ensures featuredBook == First(books) && isLoading && timerPending
      ensures activeFilter == old(activeFilter) && filteredBooks == old(filteredBooks)
    {
      featuredBook := First(books);
      isLoading := true;
      timerPending := true;
    }

    /**
     * `BookFilter`'s `onFilterChange = setActiveFilter`. A new value re-runs
     * the effect through its dependency on `activeFilter`; setting the value
     * the state already holds re-renders nothing and runs no effect.
     */
    method ChangeFilter(f: string)
      requires Valid()
      modifies this
      ensures Valid()
      ensures activeFilter == f && filteredBooks == old(filteredBooks)
      ensures f != old(activeFilter) ==> isLoading && timerPending && featuredBook == First(books)
      ensures f == old(activeFilter) ==>
                isLoading == old(isLoading) && timerPending == old(timerPending) && featuredBook == old(featuredBook)
    {
      if f != activeFilter {
        activeFilter := f;
        RunEffect();
      }
    }

    /** 500 ms elapse: an armed timer stores the selection and drops the spinner; otherwise nothing happens. */
    method Tick()
      requires Valid()
      modifies this
      ensures Valid()
      ensures !isLoading && filteredBooks == SelectBooks(books, activeFilter)
      ensures activeFilter == old(activeFilter) && featuredBook == old(featuredBook)
      ensures !old(timerPending) ==> filteredBooks == old(filteredBooks)
    {
      if timerPending {
        filteredBooks := SelectBooks(books, activeFilter);
        isLoading := false;
        timerPending := false;
      }
    }

    /** What the grid area shows: `None` for the spinner, else the stored list. */
    function Grid(): (r: Option<seq<Book>>)
      reads this
      requires Valid()
      ensures r.Some? ==> r.value == SelectBooks(books, activeFilter)
      ensures r.None? <==> isLoading
    {
      if isLoading then None else Some(filteredBooks)
    }
  }

  /** The books shipped with the site, by id, title and category. */
  const BOOKS: seq<Book> := [
    Book(1, "Brave New Words", "education"),
    Book(2, "Infectious Generosity", "self-help"),
    Book(3, "How To Know a Person", "psychology"),
    Book(4, "The Women", "historical fiction"),
    Book(5, "An Unfinished Love Story", "memoir"),
    Book(6, "The Anxious Generation", "psychology"),
    Book(7, "Engineering in Plain Sight", "science"),
    Book(8, "The Coming Wave", "technology"),
    Book(9, "Federer", "biography")
  ]

  /** The buttons of `BookFilter`. */
  const FILTER_IDS: seq<string> := ["all", "recent", "favorites", "business", "science", "society"]

  /** A category no book has selects nothing. */
  lemma {:induction false} FilterNoneInCategory(xs: seq<Book>, c: string)
    requires forall i :: 0 <= i < |xs| ==> xs[i].category != c
    ensures Filter(xs, InCategory(c)) == []
    decreases |xs|
  {
    if |xs| > 0 {
      assert !InCategory(c)(xs[0]);
      assert forall i :: 0 <= i < |xs| - 1 ==> xs[1..][i] == xs[i + 1];
      FilterNoneInCategory(xs[1..], c);
    }
  }

  /** A category only `xs[k]` has selects exactly that book. */
  lemma {:induction false} FilterOnlyAt(xs: seq<Book>, k: nat, c: string)
    requires k < |xs| && xs[k].category == c
    requires forall i :: 0 <= i < |xs| && i != k ==> xs[i].category != c
    ensures Filter(xs, InCategory(c)) == [xs[k]]
    decreases k
  {
    assert forall i :: 0 <= i < |xs| - 1 ==> xs[1..][i] == xs[i + 1];
    if k == 0 {
      assert InCategory(c)(xs[0]);
      FilterNoneInCategory(xs[1..], c);
    } else {
      assert !InCategory(c)(xs[0]);
      FilterOnlyAt(xs[1..], k - 1, c);
    }
  }

  /** Under a filter other than `all`, a category no book has gives an empty grid. */
  lemma SelectNoneInCategory(books: seq<Book>, c: string)
    requires c != "all"
    requires forall i :: 0 <= i < |books| ==> books[i].category != c
    ensures SelectBooks(books, c) == []
  {
    FilterNoneInCategory(books, c);
  }

  /** Under a filter other than `all`, a category only `books[k]` has gives exactly that book. */
  lemma SelectOnlyAt(books: seq<Book>, k: nat, c: string)
    requires c != "all" && k < |books| && books[k].category == c
    requires forall i :: 0 <= i < |books| && i != k ==> books[i].category != c
    ensures SelectBooks(books, c) == [books[k]]
  {
    FilterOnlyAt(books, k, c);
  }

  /** With the shipped books, four of the six filter buttons give an empty grid. */
  lemma ShippedFiltersEmpty(f: string)
    requires f in FILTER_IDS && f !in ["all", "science"]
    ensures SelectBooks(BOOKS, f) == []
  {
    assert forall i :: 0 <= i < |BOOKS| ==> BOOKS[i].category != f;
    SelectNoneInCategory(BOOKS, f);
  }

  /** `science` gives one book, the seventh. */
  lemma ShippedScience()
    ensures SelectBooks(BOOKS, "science") == [BOOKS[6]]
  {
    SelectOnlyAt(BOOKS, 6, "science");
  }
}
