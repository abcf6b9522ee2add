/**
  What the storefront shows: the search and size filter (`filterShoes`), the
  three orders of `sortShoes`, and the list of selected sizes the size
  options and the size chips edit.
*/
module View {
  import opened Strings
  import opened Seqs
  import opened Sizes
  import opened Pricing
  import opened Aggregate

  // ---------------------------------------------------------------------------
  // sortShoes

  /** The two sort types `sortShoes` recognises; any other one leaves the order as it is. */
  const PriceAsc: string := "price-asc"
  const PriceDesc: string := "price-desc"

  lemma SortTypesDiffer()
    ensures PriceAsc != PriceDesc
  {
    assert |PriceAsc| != |PriceDesc|;
  }

  /** The comparator key of "price-asc": `extractPrice(shoe.price)`. */
  function PriceKey(shoe: Product): real {
    ExtractPrice(shoe.price)
  }

  /** The comparator key of "price-desc": `b - a` orders by the negated price. */
  function DescKey(shoe: Product): real {
    -ExtractPrice(shoe.price)
  }

  /**
    The list `sortShoes(sortType)` displays: a stable sort by price, up or
    down, for "price-asc" and "price-desc"; the list as it is for any other
    sort type.
  */
  function Arrange(source: seq<Product>, sortType: string): (r: seq<Product>)
    ensures multiset(r) == multiset(source)
    ensures sortType == PriceAsc ==>
      forall i, j :: 0 <= i < j < |r| ==> PriceKey(r[i]) <= PriceKey(r[j])
    ensures sortType == PriceDesc ==>
      forall i, j :: 0 <= i < j < |r| ==> PriceKey(r[i]) >= PriceKey(r[j])
    ensures sortType != PriceAsc && sortType != PriceDesc ==> r == source
  {
    if sortType == PriceAsc then
      SortBySorted(source, PriceKey);
      SortBy(source, PriceKey)
    else if sortType == PriceDesc then
      SortBySorted(source, DescKey);
      SortBy(source, DescKey)
    else source
  }

  lemma ArrangeAscending(source: seq<Product>)
    ensures Arrange(source, PriceAsc) == SortBy(source, PriceKey)
  {
  }

  lemma ArrangeDescending(source: seq<Product>)
    ensures Arrange(source, PriceDesc) == SortBy(source, DescKey)
  {
    SortTypesDiffer();
  }

  /** Ordering by the negated price groups the shoes of one price as ordering by the price does. */
  lemma {:induction false} DescKeyClass(s: seq<Product>, price: real, k: real)
    requires k == -price
    ensures KeyClass(s, DescKey, k) == KeyClass(s, PriceKey, price)
  {
    if s != [] {
      DescKeyClass(s[1..], price, k);
    }
  }

  /** Whatever the sort type, shoes of equal price keep the order they had. */
  lemma ArrangeStable(source: seq<Product>, sortType: string, price: real)
    ensures KeyClass(Arrange(source, sortType), PriceKey, price) == KeyClass(source, PriceKey, price)
  {
    SortTypesDiffer();
    if sortType == PriceAsc {
      ArrangeAscending(source);
      SortByStable(source, PriceKey, price);
    } else if sortType == PriceDesc {
      ArrangeDescending(source);
      var sorted := SortBy(source, DescKey);
      var k := -price;
      SortByStable(source, DescKey, k);
      DescKeyClass(sorted, price, k);
      DescKeyClass(source, price, k);
    }
  }

  /**
    The ascending order is the only one a stable sort can produce: any
    rearrangement of the list that is ordered by price and keeps shoes of
    equal price in their order is the displayed one.
  */
  lemma ArrangeAscendingUnique(source: seq<Product>, r: seq<Product>)
    requires multiset(r) == multiset(source)
    requires SortedBy(r, PriceKey)
    requires forall k :: KeyClass(r, PriceKey, k) == KeyClass(source, PriceKey, k)
    ensures r == Arrange(source, PriceAsc)
  {
    SortByIsTheStableSort(source, r, PriceKey);
  }

  /** The same for the descending order. */
  lemma ArrangeDescendingUnique(source: seq<Product>, r: seq<Product>)
    requires multiset(r) == multiset(source)
    requires SortedBy(r, DescKey)
    requires forall k :: KeyClass(r, DescKey, k) == KeyClass(source, DescKey, k)
    ensures r == Arrange(source, PriceDesc)
  {
    SortByIsTheStableSort(source, r, DescKey);
  }

  /** Sorting again by the same order changes nothing. */
  lemma ArrangeIdempotent(source: seq<Product>, sortType: string)
    ensures Arrange(Arrange(source, sortType), sortType) == Arrange(source, sortType)
  {
    var once := Arrange(source, sortType);
    SortTypesDiffer();
    if sortType == PriceAsc {
      ArrangeAscending(source);
      ArrangeAscending(once);
      SortBySorted(source, PriceKey);
      forall k
        ensures KeyClass(once, PriceKey, k) == KeyClass(Arrange(once, sortType), PriceKey, k)
      {
        SortByStable(once, PriceKey, k);
      }
      SortByIsTheStableSort(once, once, PriceKey);
    } else if sortType == PriceDesc {
      ArrangeDescending(source);
      ArrangeDescending(once);
      SortBySorted(source, DescKey);
      forall k
        ensures KeyClass(once, DescKey, k) == KeyClass(Arrange(once, sortType), DescKey, k)
      {
        SortByStable(once, DescKey, k);
      }
      SortByIsTheStableSort(once, once, DescKey);
    }
  }

  // ---------------------------------------------------------------------------
  // filterShoes

  /** The search term is found, ignoring case, in the name or in the SKU. */
  predicate MatchesSearch(shoe: Product, term: string) {
    Contains(Lower(shoe.name), term) || Contains(Lower(shoe.sku), term)
  }

  /** Some size entry of the shoe matches the selected size. */
  predicate HasSize(shoe: Product, selected: string) {
    exists j :: 0 <= j < |shoe.sizes| && MatchSizes(selected, shoe.sizes[j].size)
  }

  /** No size is selected, or the shoe has one of the selected sizes. */
  predicate MatchesSizes(shoe: Product, selectedSizes: seq<string>) {
    |selectedSizes| == 0 || exists i :: 0 <= i < |selectedSizes| && HasSize(shoe, selectedSizes[i])
  }

  predicate ShoeMatches(shoe: Product, term: string, selectedSizes: seq<string>) {
    MatchesSearch(shoe, term) && MatchesSizes(shoe, selectedSizes)
  }

  function SelectedBy(term: string, selectedSizes: seq<string>): Product -> bool {
    (shoe: Product) => ShoeMatches(shoe, term, selectedSizes)
  }

  /** The list `filterShoes` computes from the search box and the selected sizes. */
  function Select(all: seq<Product>, searchText: string, selectedSizes: seq<string>): (r: seq<Product>)
    ensures |r| <= |all|
  {
    Filter(all, SelectedBy(Lower(searchText), selectedSizes))
  }

  /** A shoe is listed exactly when it is in stock and matches the search and the sizes. */
  lemma SelectMember(all: seq<Product>, searchText: string, selectedSizes: seq<string>, shoe: Product)
    ensures shoe in Select(all, searchText, selectedSizes) <==>
      shoe in all && ShoeMatches(shoe, Lower(searchText), selectedSizes)
  {
    FilterMember(all, SelectedBy(Lower(searchText), selectedSizes), shoe);
  }

  /** The listed shoes keep the order of the stock. */
  lemma SelectOrder(all: seq<Product>, searchText: string, selectedSizes: seq<string>)
    ensures IsSubsequence(Select(all, searchText, selectedSizes), all)
  {
    FilterIsSubsequence(all, SelectedBy(Lower(searchText), selectedSizes));
  }

  /** An empty search with no size selected lists the whole stock. */
  lemma SelectEverything(all: seq<Product>)
    ensures Select(all, "", []) == all
  {
    forall shoe | shoe in all
      ensures SelectedBy("", [])(shoe)
    {
      ContainsEmpty(Lower(shoe.name));
    }
    FilterAll(all, SelectedBy("", []));
  }

  /** Selecting "42,5" selects the same shoes as "42.5", or as any size matching it. */
  lemma HasMatchingSize(shoe: Product, a: string, b: string)
    requires MatchSizes(a, b)
    ensures HasSize(shoe, a) <==> HasSize(shoe, b)
  {
    MatchSizesIff(a, b);
    if HasSize(shoe, a) {
      var j :| 0 <= j < |shoe.sizes| && MatchSizes(a, shoe.sizes[j].size);
      MatchSizesIff(a, shoe.sizes[j].size);
      MatchSizesIff(b, shoe.sizes[j].size);
    }
    if HasSize(shoe, b) {
      var j :| 0 <= j < |shoe.sizes| && MatchSizes(b, shoe.sizes[j].size);
      MatchSizesIff(b, shoe.sizes[j].size);
      MatchSizesIff(a, shoe.sizes[j].size);
    }
  }

  /** Once a size is selected, selecting another one only lists more shoes. */
  lemma SelectMoreSizes(all: seq<Product>, searchText: string, selectedSizes: seq<string>, size: string, shoe: Product)
    requires |selectedSizes| > 0
    requires shoe in Select(all, searchText, selectedSizes)
    ensures shoe in Select(all, searchText, selectedSizes + [size])
  {
    SelectMember(all, searchText, selectedSizes, shoe);
    SelectMember(all, searchText, selectedSizes + [size], shoe);
    var i :| 0 <= i < |selectedSizes| && HasSize(shoe, selectedSizes[i]);
    assert (selectedSizes + [size])[i] == selectedSizes[i];
  }

  // ---------------------------------------------------------------------------
  // The selected sizes

  function Without(selectedSizes: seq<string>, size: string): (r: seq<string>)
    ensures forall x :: x in r <==> x in selectedSizes && x != size
  {
    var keep := (s: string) => s != size;
    FilterMembers(selectedSizes, keep);
    Filter(selectedSizes, keep)
  }

  /** A click on a size option: a selected size is unselected, another is added at the end. */
  function ToggleSize(selectedSizes: seq<string>, size: string): (r: seq<string>)
    ensures forall x :: x in r <==> (x in selectedSizes && x != size) || (x == size && size !in selectedSizes)
    ensures size !in selectedSizes ==> r == selectedSizes + [size]
  {
    if size in selectedSizes then Without(selectedSizes, size) else selectedSizes + [size]
  }

  /** Selecting a size that was not selected, then clicking it again, restores the selection. */
  lemma ToggleTwice(selectedSizes: seq<string>, size: string)
    requires size !in selectedSizes
    ensures ToggleSize(ToggleSize(selectedSizes, size), size) == selectedSizes
  {
    var keep := (s: string) => s != size;
    FilterConcat(selectedSizes, [size], keep);
    FilterAll(selectedSizes, keep);
    assert Filter([size], keep) == [];
  }

  /** Removing a size keeps the other selected sizes in their order. */
  lemma WithoutOrder(selectedSizes: seq<string>, size: string)
    ensures IsSubsequence(Without(selectedSizes, size), selectedSizes)
  {
    FilterIsSubsequence(selectedSizes, (s: string) => s != size);
  }
}
