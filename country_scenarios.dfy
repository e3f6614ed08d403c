/** The concrete behaviours the catalogue is expected to show. Only the official names
    of the records are fixed; their other fields are arbitrary. */
module CountryScenarios {
  import opened JsString
  import opened CountryRecord
  import opened CountryPipeline

  lemma ZambiaKey(zm: Country)
    requires zm.name.official == "Zambia"
    ensures Key(zm) == "zambia"
  {
    var k := Key(zm);
    assert k[0] == LowerChar('Z') && k[1] == LowerChar('a') && k[2] == LowerChar('m');
    assert k[3] == LowerChar('b') && k[4] == LowerChar('i') && k[5] == LowerChar('a');
  }

  lemma ArubaKey(aw: Country)
    requires aw.name.official == "Aruba"
    ensures Key(aw) == "aruba"
  {
    var k := Key(aw);
    assert k[0] == LowerChar('A') && k[1] == LowerChar('r') && k[2] == LowerChar('u');
    assert k[3] == LowerChar('b') && k[4] == LowerChar('a');
  }

  /** Zambia's name sorts after Aruba's. */
  lemma ZambiaAfterAruba(zm: Country, aw: Country)
    requires zm.name.official == "Zambia" && aw.name.official == "Aruba"
    ensures !InOrder(Asc, zm, aw) && InOrder(Asc, aw, zm)
  {
    ZambiaKey(zm);
    ArubaKey(aw);
  }

  /** Sorting Zambia and Aruba ascending puts Aruba first. */
  lemma SortZambiaAruba(zm: Country, aw: Country)
    requires zm.name.official == "Zambia" && aw.name.official == "Aruba"
    ensures SortCountries([zm, aw], Asc) == [aw, zm]
  {
    ZambiaAfterAruba(zm, aw);
    assert [zm, aw][1..] == [aw];
    assert SortCountries([aw], Asc) == [aw];
    assert Insert(zm, [aw], Asc) == [aw] + Insert(zm, [], Asc);
  }

  /** With an empty search the view is the page of the sorted records. */
  lemma EmptySearchShowsAll(records: seq<Country>, dir: SortBy, page: int)
    requires page >= 1
    ensures CurrentCountries(records, "", dir, page) ==
              SortCountries(records, dir)[Min((page - 1) * RowsPerPage, |records|)..Min(page * RowsPerPage, |records|)]
  {
    FilterEmptyTermKeepsAll(records);
    PageSliceWindow(SortCountries(records, dir), page);
  }

  /** Zambia and Aruba with an empty search, ascending, page 1: Aruba then Zambia. */
  lemma EmptySearchSortsAscending(zm: Country, aw: Country)
    requires zm.name.official == "Zambia" && aw.name.official == "Aruba"
    ensures CurrentCountries([zm, aw], "", Asc, 1) == [aw, zm]
  {
    EmptySearchShowsAll([zm, aw], Asc, 1);
    SortZambiaAruba(zm, aw);
    assert [aw, zm][0..2] == [aw, zm];
  }

  /** The search term "zam", lowered. */
  lemma LowerZam()
    ensures Lower("zam") == "zam"
  {
    var l := Lower("zam");
    assert l[0] == LowerChar('z') && l[1] == LowerChar('a') && l[2] == LowerChar('m');
  }

  /** "zam" matches Zambia, whose name is capitalised, and not Aruba, which has no 'z'. */
  lemma ZamMatchesOnlyZambia(zm: Country, aw: Country)
    requires zm.name.official == "Zambia" && aw.name.official == "Aruba"
    ensures Matches(zm, "zam") && !Matches(aw, "zam")
  {
    ZambiaKey(zm);
    ArubaKey(aw);
    LowerZam();
    assert Key(zm)[..3] == "zam";
    IncludesIff(Key(aw), "zam");
    assert !exists i :: OccursAt(Key(aw), "zam", i);
  }

  /** The same records searched with "zam": only Zambia. */
  lemma SearchIsCaseInsensitive(zm: Country, aw: Country)
    requires zm.name.official == "Zambia" && aw.name.official == "Aruba"
    ensures CurrentCountries([zm, aw], "zam", Asc, 1) == [zm]
  {
    ZamMatchesOnlyZambia(zm, aw);
    assert [zm, aw][1..] == [aw];
    assert FilterCountries([aw], "zam") == [];
    assert FilterCountries([zm, aw], "zam") == [zm];
    assert SortCountries([zm], Asc) == [zm];
    PageSliceWindow([zm], 1);
    assert [zm][0..1] == [zm];
  }

  /** Thirty records, page 2: five rows, Next disabled, Previous enabled. */
  lemma SecondPageOfThirty(records: seq<Country>, dir: SortBy)
    requires |records| == 30
    ensures |CurrentCountries(records, "", dir, 2)| == 5
    ensures NextDisabled(2, |FilteredCountries(records, "", dir)|)
    ensures !PreviousDisabled(2)
  {
    FilterEmptyTermKeepsAll(records);
    CurrentCountriesLength(records, "", dir, 2);
  }
}
