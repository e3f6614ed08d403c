/** The `CountryList` component's own state (its `useState` fields) and the event
    handlers that change it: typing a search term, the sort button, Previous and Next. */
module CountryListComponent {
  import opened CountryRecord
  import opened CountryPipeline

  class CountryList {
    var countries: seq<Country>
    var sortBy: SortBy
    var searchTerm: string
    var currentPage: int

    /** Pages are numbered from 1, and the guarded buttons keep it so. */
    ghost predicate Valid()
      reads this
    {
      currentPage >= 1
    }

    /** The state once the fetch has settled: `fetched` is the response body, or `[]`
        when the request failed. The other fields hold their initial values. */
    constructor (fetched: seq<Country>)
      ensures Valid()
      ensures countries == fetched && sortBy == Asc && searchTerm == "" && currentPage == 1
    {
      countries := fetched;
      sortBy := Asc;
      searchTerm := "";
      currentPage := 1;
    }

    /** `filteredCountries` for the current state. */
    function Filtered(): seq<Country>
      reads this
    {
      FilteredCountries(countries, searchTerm, sortBy)
    }

    /** `currentCountries`: the rows of the table. */
    function Current(): seq<Country>
      reads this
    {
      PageSlice(Filtered(), currentPage)
    }

    predicate PreviousIsDisabled()
      reads this
    {
      PreviousDisabled(currentPage)
    }

    predicate NextIsDisabled()
      reads this
    {
      NextDisabled(currentPage, |Filtered()|)
    }

    /** The search box's `onChange`: only the term changes; the page is not reset and
        the direction is kept. */
    method ChangeSearchTerm(term: string)
      requires Valid()
      modifies this`searchTerm
      ensures Valid()
      ensures searchTerm == term
      ensures currentPage == old(currentPage) && sortBy == old(sortBy) && countries == old(countries)
    {
      searchTerm := term;
    }

    /** The sort button: flips the direction and nothing else. */
    method ClickSort()
      requires Valid()
      modifies this`sortBy
      ensures Valid()
      ensures sortBy == ToggleSortBy(old(sortBy))
      ensures currentPage == old(currentPage) && searchTerm == old(searchTerm) && countries == old(countries)
    {
      sortBy := ToggleSortBy(sortBy);
    }

    /** Previous: a click on the disabled button does nothing; otherwise one page back.
        Either way the page number stays at least 1. */
    method ClickPrevious()
      requires Valid()
      modifies this`currentPage
      ensures Valid()
      ensures currentPage == if old(PreviousIsDisabled()) then old(currentPage) else old(currentPage) - 1
    {
      if !PreviousIsDisabled() {
        currentPage := currentPage - 1;
      }
    }

    /** Next: a click on the disabled button does nothing; otherwise one page forward,
        and the new page starts inside the filtered list, so it shows at least one row. */
    method ClickNext()
      requires Valid()
      modifies this`currentPage
      ensures Valid()
      ensures currentPage == if old(NextIsDisabled()) then old(currentPage) else old(currentPage) + 1
      ensures currentPage != old(currentPage) ==>
                (currentPage - 1) * RowsPerPage < |Filtered()| && Current() != []
    {
      if !NextIsDisabled() {
        currentPage := currentPage + 1;
        PageSliceWindow(Filtered(), currentPage);
      }
    }
  }

  /** Narrowing the search keeps the page: from page 2 of 30 records, a term that keeps at
      most 25 records leaves the table empty, with Next disabled and Previous enabled. */
  method NarrowingSearchKeepsPage(records: seq<Country>, term: string)
    returns (page: int, rows: seq<Country>, nextDisabled: bool, previousDisabled: bool)
    requires |records| == 30 && |FilterCountries(records, term)| <= RowsPerPage
    ensures page == 2 && rows == [] && nextDisabled && !previousDisabled
  {
    var view := new CountryList(records);
    FilterEmptyTermKeepsAll(records);
    NextDisabledIff(1, 30);
    view.ClickNext();
    view.ChangeSearchTerm(term);
    CurrentCountriesLength(records, term, Asc, 2);
    page, rows := view.currentPage, view.Current();
    nextDisabled, previousDisabled := view.NextIsDisabled(), view.PreviousIsDisabled();
  }
}
