/**
  The storefront's state and its event handlers: the stock (`allShoes`), the
  selected sizes, the current sort type and the filtered list (null until a
  filter runs), together with the search box, the list last displayed and
  the loading and error indicators. The feed is loaded with retries; a
  failed attempt, whether the download or the grouping throws, leaves the
  stock as it was.
*/
module Shop {
  import opened Wrappers
  import opened Seqs
  import opened Csv
  import opened Availability
  import opened Aggregate
  import opened View

  /** One download of the feed: the request failed or gave a non-OK status, or it gave the text. */
  datatype Attempt = HttpFailure | Fetched(csv: string)

  /**
    What `loadData` stores for one download, or None where it throws.
    `papa` is what the CSV library returns for a text (None where it throws).
  */
  function Load(attempt: Attempt, papa: string -> Option<seq<RawRow>>): (r: Option<seq<Product>>)
    ensures r.Some? ==> attempt.Fetched? && |r.value| <= |ParseData(attempt.csv, papa(attempt.csv))|
  {
    match attempt
    case HttpFailure => None
    case Fetched(csv) => GroupShoes(FilterData(ParseData(csv, papa(csv))))
  }

  /** What attempt `k` (from 1) loads, attempt `k` downloading `outcome(k)`. */
  function Results(outcome: nat -> Attempt, papa: string -> Option<seq<RawRow>>): nat -> Option<seq<Product>> {
    (k: nat) => Load(outcome(k), papa)
  }

  /** How a run of `loadDataWithRetry` ends: the attempts made and the stock loaded, if any. */
  datatype RetryRun = RetryRun(attempts: nat, loaded: Option<seq<Product>>)

  /** The rest of a run in which the first `made` attempts have failed. */
  function RetryFrom(made: nat, maxAttempts: int, results: nat -> Option<seq<Product>>): (r: RetryRun)
    ensures made <= r.attempts
    ensures r.attempts <= if maxAttempts < made then made else maxAttempts
    ensures r.loaded.Some? ==> made < r.attempts
    decreases maxAttempts - made
  {
    if maxAttempts <= made then RetryRun(made, None)
    else
      match results(made + 1)
      case Some(shoes) => RetryRun(made + 1, Some(shoes))
      case None => RetryFrom(made + 1, maxAttempts, results)
  }

  /** `loadDataWithRetry(maxAttempts)`, attempt `k` loading `results(k)`. */
  function Retry(maxAttempts: int, results: nat -> Option<seq<Product>>): (r: RetryRun)
    ensures r.attempts <= if maxAttempts < 0 then 0 else maxAttempts
    ensures r.loaded.Some? ==> 1 <= r.attempts
  {
    RetryFrom(0, maxAttempts, results)
  }

  /** Attempts stop at the first success, whose stock is the one loaded. */
  lemma {:induction false} RetryFromFirstSuccess(made: nat, maxAttempts: int, results: nat -> Option<seq<Product>>)
    ensures var r := RetryFrom(made, maxAttempts, results);
      && (forall k :: made < k < r.attempts ==> results(k).None?)
      && (r.loaded.Some? ==> made < r.attempts && r.loaded == results(r.attempts))
    decreases maxAttempts - made
  {
    if made < maxAttempts && results(made + 1).None? {
      RetryFromFirstSuccess(made + 1, maxAttempts, results);
    }
  }

  /** A run that loads nothing has tried every attempt it was allowed. */
  lemma {:induction false} RetryFromAllFail(made: nat, maxAttempts: int, results: nat -> Option<seq<Product>>)
    requires RetryFrom(made, maxAttempts, results).loaded.None?
    ensures RetryFrom(made, maxAttempts, results).attempts == if maxAttempts < made then made else maxAttempts
    ensures forall k :: made < k <= maxAttempts ==> results(k).None?
    decreases maxAttempts - made
  {
    if made < maxAttempts {
      RetryFromAllFail(made + 1, maxAttempts, results);
    }
  }

  /** At most `maxAttempts` attempts are made, and none when it is not positive. */
  lemma RetryBound(maxAttempts: int, results: nat -> Option<seq<Product>>)
    ensures Retry(maxAttempts, results).attempts <= if maxAttempts < 0 then 0 else maxAttempts
    ensures maxAttempts <= 0 ==> Retry(maxAttempts, results) == RetryRun(0, None)
  {
  }

  /**
    A stock is loaded exactly when one of the first `maxAttempts` attempts
    succeeds; it is the stock of the first that does, and no attempt follows
    it. When none succeeds, every allowed attempt was made.
  */
  lemma RetrySucceeds(maxAttempts: int, results: nat -> Option<seq<Product>>)
    ensures var r := Retry(maxAttempts, results);
      && (r.loaded.Some? <==> exists k :: 1 <= k <= maxAttempts && results(k).Some?)
      && (r.loaded.Some? ==>
            && 1 <= r.attempts <= maxAttempts
            && r.loaded == results(r.attempts)
            && forall k :: 1 <= k < r.attempts ==> results(k).None?)
      && (r.loaded.None? ==> r.attempts == (if maxAttempts < 0 then 0 else maxAttempts))
  {
    var r := Retry(maxAttempts, results);
    RetryFromFirstSuccess(0, maxAttempts, results);
    if r.loaded.None? {
      RetryFromAllFail(0, maxAttempts, results);
    }
  }

  class Storefront {
    var allShoes: seq<Product>
    var selectedSizes: seq<string>
    var currentSort: string
    var currentFilteredShoes: Option<seq<Product>>
    /** The value of the search box. */
    var searchText: string
    /** The list `displayShoes` last rendered. */
    var displayed: seq<Product>
    var loadingShown: bool
    var errorShown: bool

    /** The list the current sort applies to: `currentFilteredShoes || allShoes`. */
    function Source(): seq<Product>
      reads this
    {
      if currentFilteredShoes.Some? then currentFilteredShoes.value else allShoes
    }

    /**
      The filtered list, once computed, is the selection of the current stock
      by the current search and sizes, and the display is the current list in
      the current order.
    */
    ghost predicate Valid()
      reads this
    {
      && (currentFilteredShoes.Some? ==> currentFilteredShoes.value == Select(allShoes, searchText, selectedSizes))
      && displayed == Arrange(Source(), currentSort)
    }

    /** The page before the feed arrives. */
    constructor ()
      ensures Valid()
      ensures allShoes == [] && selectedSizes == [] && currentSort == "default"
      ensures currentFilteredShoes == None && searchText == "" && displayed == []
      ensures loadingShown && !errorShown
    {
      allShoes := [];
      selectedSizes := [];
      currentSort := "default";
      currentFilteredShoes := None;
      searchText := "";
      displayed := [];
      loadingShown := true;
      errorShown := false;
    }

    /** `sortShoes(sortType)`. */
    method SortShoes(sortType: string)
      modifies this
      ensures currentSort == sortType
      ensures displayed == Arrange(Source(), sortType)
      ensures allShoes == old(allShoes) && selectedSizes == old(selectedSizes)
      ensures currentFilteredShoes == old(currentFilteredShoes) && searchText == old(searchText)
      ensures loadingShown == old(loadingShown) && errorShown == old(errorShown)
      ensures old(currentFilteredShoes.Some? ==> currentFilteredShoes.value == Select(allShoes, searchText, selectedSizes)) ==> Valid()
    {
      currentSort := sortType;
      displayed := Arrange(Source(), sortType);
    }

    /** `filterShoes()`: the selection is recomputed and shown in the current order. */
    method FilterShoes()
      modifies this
      ensures Valid()
      ensures currentFilteredShoes == Some(Select(allShoes, searchText, selectedSizes))
      ensures displayed == Arrange(Select(allShoes, searchText, selectedSizes), currentSort)
      ensures allShoes == old(allShoes) && selectedSizes == old(selectedSizes) && currentSort == old(currentSort)
      ensures searchText == old(searchText) && loadingShown == old(loadingShown) && errorShown == old(errorShown)
    {
      currentFilteredShoes := Some(Select(allShoes, searchText, selectedSizes));
      SortShoes(currentSort);
    }

    /** Typing in the search box. */
    method Search(text: string)
      modifies this
      ensures Valid()
      ensures currentFilteredShoes == Some(Select(allShoes, searchText, selectedSizes))
      ensures searchText == text
      ensures displayed == Arrange(Select(allShoes, text, selectedSizes), currentSort)
      ensures allShoes == old(allShoes) && selectedSizes == old(selectedSizes) && currentSort == old(currentSort)
      ensures loadingShown == old(loadingShown) && errorShown == old(errorShown)
    {
      searchText := text;
      FilterShoes();
    }

    /** A click on a size option. */
    method ToggleSizeOption(size: string)
      modifies this
      ensures Valid()
      ensures currentFilteredShoes == Some(Select(allShoes, searchText, selectedSizes))
      ensures selectedSizes == ToggleSize(old(selectedSizes), size)
      ensures displayed == Arrange(Select(allShoes, searchText, selectedSizes), currentSort)
      ensures allShoes == old(allShoes) && searchText == old(searchText) && currentSort == old(currentSort)
      ensures loadingShown == old(loadingShown) && errorShown == old(errorShown)
    {
      selectedSizes := ToggleSize(selectedSizes, size);
      FilterShoes();
    }

    /** A click on the remove button of a size chip. */
    method RemoveSizeChip(size: string)
      modifies this
      ensures Valid()
      ensures currentFilteredShoes == Some(Select(allShoes, searchText, selectedSizes))
      ensures selectedSizes == Without(old(selectedSizes), size)
      ensures displayed == Arrange(Select(allShoes, searchText, selectedSizes), currentSort)
      ensures allShoes == old(allShoes) && searchText == old(searchText) && currentSort == old(currentSort)
      ensures loadingShown == old(loadingShown) && errorShown == old(errorShown)
    {
      selectedSizes := Without(selectedSizes, size);
      FilterShoes();
    }

    /** `resetFilters()`: the whole stock in its own order. */
    method ResetFilters()
      modifies this
      ensures Valid()
      ensures searchText == "" && selectedSizes == [] && currentFilteredShoes == None
      ensures currentSort == "default" && displayed == allShoes
      ensures allShoes == old(allShoes) && loadingShown == old(loadingShown) && errorShown == old(errorShown)
    {
      searchText := "";
      selectedSizes := [];
      currentFilteredShoes := None;
      SortShoes("default");
    }

    /** `processData()`: the filter is dropped and the stock shown in the current order. */
    method ProcessData()
      modifies this
      ensures Valid()
      ensures currentFilteredShoes == None && displayed == Arrange(allShoes, currentSort) && !loadingShown
      ensures allShoes == old(allShoes) && selectedSizes == old(selectedSizes) && currentSort == old(currentSort)
      ensures searchText == old(searchText) && errorShown == old(errorShown)
    {
      currentFilteredShoes := None;
      SortShoes(currentSort);
      loadingShown := false;
    }

    /**
      `loadData()` for one download: `ok` is false where it throws, and then
      nothing has changed; otherwise the stock is the grouped available rows.
    */
    method LoadData(attempt: Attempt, papa: string -> Option<seq<RawRow>>) returns (ok: bool)
      requires Valid()
      modifies this
      ensures Valid()
      ensures ok <==> Load(attempt, papa).Some?
      ensures !ok ==> unchanged(this)
      ensures ok ==> allShoes == Load(attempt, papa).value && currentFilteredShoes == None
      ensures ok ==> displayed == Arrange(allShoes, currentSort) && !loadingShown
      ensures selectedSizes == old(selectedSizes) && currentSort == old(currentSort) && searchText == old(searchText)
      ensures errorShown == old(errorShown)
    {
      match attempt
      case HttpFailure =>
        return false;
      case Fetched(csv) =>
        var parsed := ParseData(csv, papa(csv));
        var available := FilterData(parsed);
        var grouped := GroupShoesBySku(available);
        if grouped.None? {
          return false;
        }
        allShoes := grouped.value;
        ProcessData();
        return true;
    }

    /** `showError()`. */
    method ShowError()
      modifies this
      ensures errorShown
      ensures allShoes == old(allShoes) && selectedSizes == old(selectedSizes) && currentSort == old(currentSort)
      ensures currentFilteredShoes == old(currentFilteredShoes) && searchText == old(searchText)
      ensures displayed == old(displayed) && loadingShown == old(loadingShown)
    {
      errorShown := true;
    }

    /**
      `loadDataWithRetry(maxAttempts)`: downloads until one attempt succeeds or
      `maxAttempts` have failed, showing the error after the last failure.
    */
    method LoadDataWithRetry(maxAttempts: int, outcome: nat -> Attempt, papa: string -> Option<seq<RawRow>>)
      returns (attempts: nat)
      requires Valid()
      modifies this
      ensures Valid()
      ensures var run := Retry(maxAttempts, Results(outcome, papa));
        && attempts == run.attempts
        && (run.loaded.Some? ==>
              allShoes == run.loaded.value && currentFilteredShoes == None
              && displayed == Arrange(allShoes, currentSort) && !loadingShown && errorShown == old(errorShown))
        && (run.loaded.None? ==>
              allShoes == old(allShoes) && currentFilteredShoes == old(currentFilteredShoes)
              && displayed == old(displayed) && loadingShown == old(loadingShown)
              && errorShown == (old(errorShown) || maxAttempts >= 1))
      ensures selectedSizes == old(selectedSizes) && currentSort == old(currentSort) && searchText == old(searchText)
    {
      attempts := 0;
      var success := false;
      while attempts < maxAttempts && !success
        invariant Valid()
        invariant !success ==> RetryFrom(attempts, maxAttempts, Results(outcome, papa)) == Retry(maxAttempts, Results(outcome, papa))
        invariant success ==> Retry(maxAttempts, Results(outcome, papa)) == RetryRun(attempts, Some(allShoes))
        invariant success ==> currentFilteredShoes == None && displayed == Arrange(allShoes, currentSort)
        invariant success ==> !loadingShown && errorShown == old(errorShown)
        invariant !success ==> allShoes == old(allShoes) && currentFilteredShoes == old(currentFilteredShoes)
        invariant !success ==> displayed == old(displayed) && loadingShown == old(loadingShown)
        invariant !success ==> errorShown == (old(errorShown) || (attempts >= 1 && attempts >= maxAttempts))
        invariant selectedSizes == old(selectedSizes) && currentSort == old(currentSort) && searchText == old(searchText)
        decreases maxAttempts - attempts, if success then 0 else 1
      {
        attempts := attempts + 1;
        var ok := LoadData(outcome(attempts), papa);
        if ok {
          success := true;
        } else if attempts >= maxAttempts {
          ShowError();
        }
      }
    }
  }
}
