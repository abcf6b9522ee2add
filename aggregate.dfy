/**
  Folding the available feed rows into products (`groupShoesBySKU`): rows are
  grouped by "Name|SKU" (by Name alone when the SKU is empty or "-"); the first
  row of a group fixes its name, SKU, image and price; each row then adds one
  to the quantity of the first size entry whose size matches its own, or
  appends a new entry of quantity 1.

  The grouping object is a plain JavaScript object, which has two visible
  consequences that are modelled: a group key that names an inherited member
  of `Object.prototype` ("toString", "__proto__", ...) reads as truthy, so no
  product is created and the following `.sizes.find` throws; and
  `Object.values` lists array-index keys ("42") first, in numeric order,
  before the other keys in insertion order.
*/
module Aggregate {
  import opened Wrappers
  import opened Strings
  import opened Seqs
  import opened Sizes
  import opened Pricing
  import opened Images
  import opened Csv

  datatype SizeEntry = SizeEntry(size: string, quantity: nat)

  datatype Product = Product(name: string, sku: string, image: string, price: string, sizes: seq<SizeEntry>)

  /** The grouping object: its own keys in insertion order, and the product under each. */
  datatype Groups = Groups(order: seq<string>, byKey: map<string, Product>)

  // ---------------------------------------------------------------------------
  // One row

  /** A row that takes part: it has a Name and a Size. */
  predicate Counted(row: RawRow) {
    Field(row, "Name") != "" && Field(row, "Size") != ""
  }

  function GroupKey(row: RawRow): string {
    var sku := Field(row, "SKU");
    if sku != "" && sku != "-" then Field(row, "Name") + "|" + sku else Field(row, "Name")
  }

  /** The product a group's first row creates, before any size is added. */
  function NewProduct(row: RawRow): (p: Product)
    ensures p.sizes == [] && p.name == Field(row, "Name") && p.image != ""
    ensures p.sku == (if Field(row, "SKU") == "" then "-" else Field(row, "SKU"))
  {
    Product(
      Field(row, "Name"),
      if Field(row, "SKU") == "" then "-" else Field(row, "SKU"),
      GetValidImageUrl(Field(row, "image_url")),
      AdjustPrice(Field(row, "Price + ship")),
      [])
  }

  /** The group key recovered from a product's name and displayed SKU. */
  function ProductKey(p: Product): string {
    if p.sku != "-" then p.name + "|" + p.sku else p.name
  }

  /** A product's key is the key of the row that created it. */
  lemma ProductKeyOfNew(row: RawRow)
    ensures ProductKey(NewProduct(row)) == GroupKey(row)
  {
  }

  /** The members every plain object inherits from `Object.prototype`. */
  const InheritedKeys: set<string> := {
    "constructor", "hasOwnProperty", "isPrototypeOf", "propertyIsEnumerable",
    "toLocaleString", "toString", "valueOf", "__proto__",
    "__defineGetter__", "__defineSetter__", "__lookupGetter__", "__lookupSetter__"
  }

  /** The test `sizes.find` applies to each entry. */
  function MatchesEntry(size: string): SizeEntry -> bool {
    (e: SizeEntry) => MatchSizes(e.size, size)
  }

  /** `sizes.find(s => matchSizes(s.size, size))`, as an index. */
  function FirstMatch(sizes: seq<SizeEntry>, size: string): Option<nat> {
    var i := FindIndex(sizes, MatchesEntry(size));
    if i < |sizes| then Some(i) else None
  }

  /** One more of `size`: the matching entry's quantity goes up, or a new entry is appended. */
  function AddSize(sizes: seq<SizeEntry>, size: string): (r: seq<SizeEntry>)
    ensures |r| == |sizes| || r == sizes + [SizeEntry(size, 1)]
    ensures |r| >= 1
  {
    match FirstMatch(sizes, size)
    case Some(i) => Bump(sizes, i)
    case None => sizes + [SizeEntry(size, 1)]
  }

  /** The body of the `forEach`: None where it throws. */
  function Step(g: Groups, row: RawRow): (r: Option<Groups>)
    ensures r.None? <==> Throws(row)
    ensures r.Some? ==> g.byKey.Keys <= r.value.byKey.Keys
    ensures r.Some? && Counted(row) ==> GroupKey(row) in r.value.byKey
  {
    if !Counted(row) then Some(g)
    else
      var key := GroupKey(row);
      if key in InheritedKeys then None
      else
        var order := if key in g.byKey then g.order else g.order + [key];
        var p := if key in g.byKey then g.byKey[key] else NewProduct(row);
        Some(Groups(order, g.byKey[key := p.(sizes := AddSize(p.sizes, Field(row, "Size")))]))
  }

  /** The own keys are listed once each, in `order`. */
  ghost predicate KeysOk(g: Groups) {
    && (forall k :: k in g.order <==> k in g.byKey)
    && Distinct(g.order)
  }

  lemma StepKeys(g: Groups, row: RawRow)
    requires KeysOk(g) && Step(g, row).Some?
    ensures KeysOk(Step(g, row).value)
  {
  }

  /** The grouping object after the rows, in order; None once a row has thrown. */
  function Grouped(rows: seq<RawRow>): (r: Option<Groups>)
    ensures r.Some? ==> KeysOk(r.value)
    ensures r.Some? ==> |r.value.order| <= |rows|
    decreases |rows|
  {
    if rows == [] then Some(Groups([], map[]))
    else
      match Grouped(rows[..|rows| - 1])
      case None => None
      case Some(g) =>
        if Step(g, rows[|rows| - 1]).Some? then StepKeys(g, rows[|rows| - 1]); Step(g, rows[|rows| - 1])
        else None
  }

  // ---------------------------------------------------------------------------
  // Object.values

  /** An array index: a canonical decimal numeral below 2^32 - 1. */
  predicate IsArrayIndex(key: string) {
    IsCanonicalNumeral(key) && DigitsValue(key) < 0xFFFF_FFFF
  }

  predicate NotArrayIndex(key: string) {
    !IsArrayIndex(key)
  }

  function IndexValue(key: string): real {
    if IsArrayIndex(key) then DigitsValue(key) as real else 0.0
  }

  /** The order in which `Object.values` lists own keys inserted in `order`. */
  function KeyOrder(order: seq<string>): seq<string> {
    SortBy(Filter(order, IsArrayIndex), IndexValue) + Filter(order, NotArrayIndex)
  }

  /** `Object.values` lists every own key exactly once. */
  lemma KeyOrderPermutes(order: seq<string>)
    ensures multiset(KeyOrder(order)) == multiset(order)
  {
    FilterPartition(order, IsArrayIndex, NotArrayIndex);
  }

  /** Array-index keys come first, in increasing numeric order. */
  lemma KeyOrderIndicesFirst(order: seq<string>)
    ensures var keys := KeyOrder(order);
      forall i, j :: 0 <= i < j < |keys| && IsArrayIndex(keys[j]) ==>
        IsArrayIndex(keys[i]) && IndexValue(keys[i]) <= IndexValue(keys[j])
  {
    var idx := SortBy(Filter(order, IsArrayIndex), IndexValue);
    var rest := Filter(order, NotArrayIndex);
    SortBySorted(Filter(order, IsArrayIndex), IndexValue);
    forall i | 0 <= i < |idx|
      ensures IsArrayIndex(idx[i])
    {
      assert idx[i] in multiset(idx);
      FilterMember(order, IsArrayIndex, idx[i]);
    }
    forall i | 0 <= i < |rest|
      ensures !IsArrayIndex(rest[i])
    {
      FilterMember(order, NotArrayIndex, rest[i]);
    }
  }

  /** Without array-index keys, `Object.values` keeps insertion order. */
  lemma KeyOrderNoIndices(order: seq<string>)
    requires forall i :: 0 <= i < |order| ==> !IsArrayIndex(order[i])
    ensures KeyOrder(order) == order
  {
    FilterAll(order, NotArrayIndex);
    FilterNone(order, IsArrayIndex);
  }

  function Values(keys: seq<string>, byKey: map<string, Product>): (r: seq<Product>)
    requires forall i :: 0 <= i < |keys| ==> keys[i] in byKey
    ensures |r| == |keys| && forall i :: 0 <= i < |keys| ==> r[i] == byKey[keys[i]]
  {
    if keys == [] then [] else [byKey[keys[0]]] + Values(keys[1..], byKey)
  }

  /** `Object.values` finds a product under every key it lists. */
  lemma KeyOrderKeys(g: Groups)
    requires KeysOk(g)
    ensures forall i :: 0 <= i < |KeyOrder(g.order)| ==> KeyOrder(g.order)[i] in g.byKey
  {
    var keys := KeyOrder(g.order);
    KeyOrderPermutes(g.order);
    forall i | 0 <= i < |keys|
      ensures keys[i] in g.byKey
    {
      assert keys[i] in multiset(g.order);
    }
  }

  /** `groupShoesBySKU(shoes)`: the products, or None when it throws. */
  function GroupShoes(rows: seq<RawRow>): (r: Option<seq<Product>>)
    ensures r.Some? ==> |r.value| <= |rows|
  {
    match Grouped(rows)
    case None => None
    case Some(g) =>
      KeyOrderKeys(g);
      KeyOrderPermutes(g.order);
      assert |KeyOrder(g.order)| == |multiset(g.order)|;
      Some(Values(KeyOrder(g.order), g.byKey))
  }

  /**
    The `forEach` callback for one row: the group is created when the key is
    new, then the entry `sizes.find` returns has its quantity raised, or a new
    entry is pushed. `thrown` is set where `.sizes.find` throws.
  */
  method AddShoe(order: seq<string>, grouped: map<string, Product>, shoe: RawRow)
    returns (thrown: bool, order': seq<string>, grouped': map<string, Product>)
    ensures thrown <==> Step(Groups(order, grouped), shoe).None?
    ensures !thrown ==> Step(Groups(order, grouped), shoe) == Some(Groups(order', grouped'))
  {
    thrown, order', grouped' := false, order, grouped;
    if !Counted(shoe) {
      return;
    }
    var key := GroupKey(shoe);
    if key in InheritedKeys {
      thrown := true;
      return;
    }
    if key !in grouped' {
      grouped' := grouped'[key := NewProduct(shoe)];
      order' := order' + [key];
    }
    var size := Field(shoe, "Size");
    var sizes := grouped'[key].sizes;
    ghost var before := Before(Groups(order, grouped), shoe);
    assert grouped'[key] == before;
    var i := Find(sizes, MatchesEntry(size));
    if i < |sizes| {
      sizes := Bump(sizes, i);
    } else {
      sizes := sizes + [SizeEntry(size, 1)];
    }
    assert sizes == AddSize(before.sizes, size);
    grouped' := grouped'[key := grouped'[key].(sizes := sizes)];
    assert grouped' == grouped[key := before.(sizes := sizes)];
  }

  /** `groupShoesBySKU(shoes)` as the loop over the rows that it is. */
  method GroupShoesBySku(shoes: seq<RawRow>) returns (r: Option<seq<Product>>)
    ensures r == GroupShoes(shoes)
  {
    var order: seq<string> := [];
    var grouped: map<string, Product> := map[];
    var n := 0;
    while n < |shoes|
      invariant n <= |shoes|
      invariant Grouped(shoes[..n]) == Some(Groups(order, grouped))
    {
      assert shoes[..n + 1] == shoes[..n] + [shoes[n]];
      assert (shoes[..n] + [shoes[n]])[..n] == shoes[..n];
      var thrown;
      thrown, order, grouped := AddShoe(order, grouped, shoes[n]);
      if thrown {
        assert Throws(shoes[n]);
        GroupedThrows(shoes);
        return None;
      }
      n := n + 1;
    }
    assert shoes[..n] == shoes;
    KeyOrderKeys(Groups(order, grouped));
    r := Some(Values(KeyOrder(order), grouped));
  }

  // ---------------------------------------------------------------------------
  // The size entries of one product

  /**
    No two entries match (stated on the normal forms, which is the same thing
    by `MatchSizesIff`), every quantity is at least one, and there is an entry.
  */
  ghost predicate SizesOk(sizes: seq<SizeEntry>) {
    && |sizes| >= 1
    && (forall j :: 0 <= j < |sizes| ==> sizes[j].quantity >= 1)
    && (forall i, j :: 0 <= i < j < |sizes| ==> Normalize(sizes[i].size) != Normalize(sizes[j].size))
  }

  /** Some entry matches `size`. */
  ghost predicate Covered(sizes: seq<SizeEntry>, size: string) {
    exists j :: 0 <= j < |sizes| && MatchSizes(sizes[j].size, size)
  }

  /** What `AddSize` does to each entry. */
  lemma AddSizeEntries(sizes: seq<SizeEntry>, size: string)
    requires sizes == [] || SizesOk(sizes)
    ensures var r := AddSize(sizes, size);
      && (forall j :: 0 <= j < |sizes| ==> r[j].size == sizes[j].size)
      && (forall j :: 0 <= j < |sizes| ==>
            r[j].quantity == sizes[j].quantity + (if MatchSizes(sizes[j].size, size) then 1 else 0))
      && (|r| == |sizes| + 1 ==> r[|sizes|] == SizeEntry(size, 1) && forall j :: 0 <= j < |sizes| ==> !MatchSizes(sizes[j].size, size))
      && Covered(r, size)
  {
    var r := AddSize(sizes, size);
    match FirstMatch(sizes, size)
    case Some(i) =>
      assert MatchesEntry(size)(sizes[i]);
      forall j | 0 <= j < |sizes|
        ensures r[j].quantity == sizes[j].quantity + (if MatchSizes(sizes[j].size, size) then 1 else 0)
      {
        if j < i {
          assert !MatchesEntry(size)(sizes[j]);
        } else if j > i {
          MatchSizesIff(sizes[i].size, size);
          MatchSizesIff(sizes[j].size, size);
        }
      }
      assert MatchSizes(r[i].size, size);
    case None =>
      forall j | 0 <= j < |sizes|
        ensures !MatchSizes(sizes[j].size, size)
      {
        assert !MatchesEntry(size)(sizes[j]);
      }
      MatchSizesReflexive(size);
      assert MatchSizes(r[|sizes|].size, size);
  }

  /** An entry for a size no entry matches keeps the entries distinct. */
  lemma AppendOk(sizes: seq<SizeEntry>, size: string)
    requires sizes == [] || SizesOk(sizes)
    requires forall j :: 0 <= j < |sizes| ==> Normalize(sizes[j].size) != Normalize(size)
    ensures SizesOk(sizes + [SizeEntry(size, 1)])
  {
    var r := sizes + [SizeEntry(size, 1)];
    forall j | 0 <= j < |r|
      ensures r[j].quantity >= 1
    {
      if j < |sizes| {
        assert r[j] == sizes[j];
      }
    }
    forall i, j | 0 <= i < j < |r|
      ensures Normalize(r[i].size) != Normalize(r[j].size)
    {
      assert r[i] == sizes[i];
      if j < |sizes| {
        assert r[j] == sizes[j];
      } else {
        assert r[j].size == size;
      }
    }
  }

  /** One more of an existing entry keeps the entries distinct and their quantities positive. */
  lemma BumpOk(sizes: seq<SizeEntry>, i: nat)
    requires SizesOk(sizes) && i < |sizes|
    ensures SizesOk(Bump(sizes, i))
  {
    var r := Bump(sizes, i);
    forall j | 0 <= j < |r|
      ensures r[j].size == sizes[j].size && r[j].quantity >= sizes[j].quantity
    {
    }
    forall j, k | 0 <= j < k < |r|
      ensures Normalize(r[j].size) != Normalize(r[k].size)
    {
      assert r[j].size == sizes[j].size && r[k].size == sizes[k].size;
    }
  }

  /** Adding a size keeps the entries distinct and their quantities positive. */
  lemma AddSizeOk(sizes: seq<SizeEntry>, size: string)
    requires sizes == [] || SizesOk(sizes)
    ensures SizesOk(AddSize(sizes, size))
  {
    match FirstMatch(sizes, size)
    case Some(i) =>
      assert AddSize(sizes, size) == Bump(sizes, i);
      BumpOk(sizes, i);
    case None =>
      forall j | 0 <= j < |sizes|
        ensures Normalize(sizes[j].size) != Normalize(size)
      {
        assert !MatchesEntry(size)(sizes[j]);
        MatchSizesIff(sizes[j].size, size);
      }
      AppendOk(sizes, size);
  }

  /** Adding a size keeps every size that was covered covered. */
  lemma AddSizeCovers(sizes: seq<SizeEntry>, size: string, other: string)
    requires sizes == [] || SizesOk(sizes)
    requires Covered(sizes, other)
    ensures Covered(AddSize(sizes, size), other)
  {
    AddSizeEntries(sizes, size);
    var j :| 0 <= j < |sizes| && MatchSizes(sizes[j].size, other);
    assert AddSize(sizes, size)[j].size == sizes[j].size;
  }

  function Quantity(e: SizeEntry): nat {
    e.quantity
  }

  /** The number of pairs of one product: the sum of its quantities. */
  function ProductTotal(p: Product): nat {
    SumOf(p.sizes, Quantity)
  }

  /** One more of entry `i`. */
  function Bump(sizes: seq<SizeEntry>, i: nat): (r: seq<SizeEntry>)
    requires i < |sizes|
    ensures SumOf(r, Quantity) == SumOf(sizes, Quantity) + 1
  {
    var e := sizes[i].(quantity := sizes[i].quantity + 1);
    SumOfUpdate(sizes, i, e, Quantity);
    sizes[i := e]
  }

  lemma AppendTotal(sizes: seq<SizeEntry>, size: string)
    ensures SumOf(sizes + [SizeEntry(size, 1)], Quantity) == SumOf(sizes, Quantity) + 1
  {
    SumOfConcat(sizes, [SizeEntry(size, 1)], Quantity);
    assert SumOf([SizeEntry(size, 1)], Quantity) == 1;
  }

  /** Adding a size adds one pair. */
  lemma AddSizeTotal(sizes: seq<SizeEntry>, size: string)
    ensures SumOf(AddSize(sizes, size), Quantity) == SumOf(sizes, Quantity) + 1
  {
    if FirstMatch(sizes, size).None? {
      AppendTotal(sizes, size);
    }
  }

  // ---------------------------------------------------------------------------
  // What the grouping object records about the rows read so far

  /** The rows of group `key`: counted rows with that key. */
  function InGroup(key: string): RawRow -> bool {
    (row: RawRow) => Counted(row) && GroupKey(row) == key
  }

  /** The index of the first row of group `key`, or the number of rows when it has none. */
  function FirstRow(rows: seq<RawRow>, key: string): nat {
    FindIndex(rows, InGroup(key))
  }

  /** How many rows of group `key` have a size that `size` matches. */
  function Matching(rows: seq<RawRow>, key: string, size: string): nat
    decreases |rows|
  {
    if rows == [] then 0
    else
      var row := rows[|rows| - 1];
      Matching(rows[..|rows| - 1], key, size)
        + (if InGroup(key)(row) && MatchSizes(size, Field(row, "Size")) then 1 else 0)
  }

  /** A product without its size entries. */
  function Header(p: Product): Product {
    p.(sizes := [])
  }

  /** The number of pairs under each key. */
  function KeyTotal(byKey: map<string, Product>): string -> nat {
    (k: string) => if k in byKey then ProductTotal(byKey[k]) else 0
  }

  ghost predicate SizesAllOk(g: Groups) {
    forall k :: k in g.byKey ==> SizesOk(g.byKey[k].sizes)
  }

  /** A group exists once one of its rows is read; the first one made its header. */
  ghost predicate FirstRows(rows: seq<RawRow>, g: Groups) {
    && (forall k :: k in g.byKey <==> FirstRow(rows, k) < |rows|)
    && (forall k :: k in g.byKey ==> Header(g.byKey[k]) == NewProduct(rows[FirstRow(rows, k)]))
  }

  /** Keys are listed in the order their first rows were read. */
  ghost predicate InFirstRowOrder(rows: seq<RawRow>, g: Groups) {
    forall i, j :: 0 <= i < j < |g.order| ==> FirstRow(rows, g.order[i]) < FirstRow(rows, g.order[j])
  }

  /** Every counted row read so far has its group and an entry matching its size. */
  ghost predicate AllCovered(rows: seq<RawRow>, g: Groups) {
    forall i :: 0 <= i < |rows| && Counted(rows[i]) ==>
      GroupKey(rows[i]) in g.byKey && Covered(g.byKey[GroupKey(rows[i])].sizes, Field(rows[i], "Size"))
  }

  /** Each quantity is the number of rows of its group whose size matches the entry's. */
  ghost predicate Tallies(rows: seq<RawRow>, g: Groups) {
    forall k, j :: k in g.byKey && 0 <= j < |g.byKey[k].sizes| ==>
      g.byKey[k].sizes[j].quantity == Matching(rows, k, g.byKey[k].sizes[j].size)
  }

  /** The pairs of all products together are the counted rows. */
  ghost predicate TotalOk(rows: seq<RawRow>, g: Groups) {
    SumOf(g.order, KeyTotal(g.byKey)) == |Filter(rows, Counted)|
  }

  /** The product under the row's key before the row is added. */
  function Before(g: Groups, row: RawRow): Product {
    if GroupKey(row) in g.byKey then g.byKey[GroupKey(row)] else NewProduct(row)
  }

  /** A row outside group `k` leaves the first row of `k` where it was. */
  lemma FirstRowKept(rows: seq<RawRow>, row: RawRow, k: string)
    requires FirstRow(rows, k) < |rows| || !InGroup(k)(row)
    ensures FirstRow(rows + [row], k) == if FirstRow(rows, k) < |rows| then FirstRow(rows, k) else |rows| + 1
    ensures FirstRow(rows, k) < |rows| ==> (rows + [row])[FirstRow(rows, k)] == rows[FirstRow(rows, k)]
  {
    FindIndexAppend(rows, row, InGroup(k));
  }

  lemma StepFirstRows(rows: seq<RawRow>, g: Groups, row: RawRow)
    requires FirstRows(rows, g) && Step(g, row).Some?
    ensures FirstRows(rows + [row], Step(g, row).value)
  {
    var g', rows' := Step(g, row).value, rows + [row];
    forall k
      ensures k in g'.byKey <==> FirstRow(rows', k) < |rows'|
      ensures k in g'.byKey ==> FirstRow(rows', k) < |rows'| && Header(g'.byKey[k]) == NewProduct(rows'[FirstRow(rows', k)])
    {
      if k in g.byKey {
        StepFirstRowOld(rows, g, row, k);
      } else if InGroup(k)(row) {
        StepFirstRowNew(rows, g, row);
      } else {
        StepFirstRowAbsent(rows, g, row, k);
      }
    }
  }

  /** A key already grouped keeps its first row and its product's fields. */
  lemma StepFirstRowOld(rows: seq<RawRow>, g: Groups, row: RawRow, k: string)
    requires FirstRows(rows, g) && Step(g, row).Some? && k in g.byKey
    ensures var g', rows' := Step(g, row).value, rows + [row];
      && k in g'.byKey && FirstRow(rows', k) < |rows'|
      && Header(g'.byKey[k]) == NewProduct(rows'[FirstRow(rows', k)])
  {
    var g' := Step(g, row).value;
    FirstRowKept(rows, row, k);
    assert Header(g'.byKey[k]) == Header(g.byKey[k]);
  }

  /** The first row of a new key is the row that creates it. */
  lemma StepFirstRowNew(rows: seq<RawRow>, g: Groups, row: RawRow)
    requires FirstRows(rows, g) && Step(g, row).Some? && Counted(row) && GroupKey(row) !in g.byKey
    ensures var g', rows', k := Step(g, row).value, rows + [row], GroupKey(row);
      && k in g'.byKey && FirstRow(rows', k) == |rows|
      && Header(g'.byKey[k]) == NewProduct(rows'[|rows|])
  {
    var k := GroupKey(row);
    FindIndexAppend(rows, row, InGroup(k));
    assert (rows + [row])[|rows|] == row;
  }

  /** A key no row has created yet stays absent. */
  lemma StepFirstRowAbsent(rows: seq<RawRow>, g: Groups, row: RawRow, k: string)
    requires FirstRows(rows, g) && Step(g, row).Some? && k !in g.byKey && !InGroup(k)(row)
    ensures k !in Step(g, row).value.byKey && FirstRow(rows + [row], k) == |rows| + 1
  {
    FirstRowKept(rows, row, k);
  }

  lemma StepOrder(rows: seq<RawRow>, g: Groups, row: RawRow)
    requires KeysOk(g) && FirstRows(rows, g) && InFirstRowOrder(rows, g) && Step(g, row).Some?
    ensures InFirstRowOrder(rows + [row], Step(g, row).value)
  {
    var g' := Step(g, row).value;
    forall k | k in g.byKey
      ensures FirstRow(rows + [row], k) == FirstRow(rows, k) < |rows|
    {
      FirstRowKept(rows, row, k);
    }
    if Counted(row) && GroupKey(row) !in g.byKey {
      StepOrderNew(rows, g, row);
    } else {
      assert g'.order == g.order;
    }
  }

  /** A new key is listed last, and its first row is the last row read. */
  lemma StepOrderNew(rows: seq<RawRow>, g: Groups, row: RawRow)
    requires KeysOk(g) && FirstRows(rows, g) && InFirstRowOrder(rows, g) && Step(g, row).Some?
    requires Counted(row) && GroupKey(row) !in g.byKey
    requires forall k :: k in g.byKey ==> FirstRow(rows + [row], k) == FirstRow(rows, k) < |rows|
    ensures InFirstRowOrder(rows + [row], Step(g, row).value)
  {
    var key := GroupKey(row);
    assert Step(g, row).value.order == g.order + [key];
    FindIndexAppend(rows, row, InGroup(key));
    forall i | 0 <= i < |g.order|
      ensures FirstRow(rows + [row], g.order[i]) == FirstRow(rows, g.order[i]) < |rows|
    {
      assert g.order[i] in g.byKey;
    }
    OrderAppend(rows, rows + [row], g.order, key);
  }

  /** Listing a key whose first row comes after all others last keeps the list in first-row order. */
  lemma OrderAppend(rows: seq<RawRow>, rows': seq<RawRow>, order: seq<string>, key: string)
    requires forall i, j :: 0 <= i < j < |order| ==> FirstRow(rows, order[i]) < FirstRow(rows, order[j])
    requires forall i :: 0 <= i < |order| ==> FirstRow(rows', order[i]) == FirstRow(rows, order[i]) < |rows|
    requires FirstRow(rows', key) == |rows|
    ensures var order' := order + [key];
      forall i, j :: 0 <= i < j < |order'| ==> FirstRow(rows', order'[i]) < FirstRow(rows', order'[j])
  {
    var order' := order + [key];
    forall i, j | 0 <= i < j < |order'|
      ensures FirstRow(rows', order'[i]) < FirstRow(rows', order'[j])
    {
      assert order'[i] == order[i];
      if j < |order| {
        assert order'[j] == order[j];
      }
    }
  }

  lemma StepSizes(g: Groups, row: RawRow)
    requires SizesAllOk(g) && Step(g, row).Some?
    ensures SizesAllOk(Step(g, row).value)
  {
    if Counted(row) {
      AddSizeOk(Before(g, row).sizes, Field(row, "Size"));
    }
  }

  lemma StepCovered(rows: seq<RawRow>, g: Groups, row: RawRow)
    requires SizesAllOk(g) && AllCovered(rows, g) && Step(g, row).Some?
    ensures AllCovered(rows + [row], Step(g, row).value)
  {
    var g', rows' := Step(g, row).value, rows + [row];
    if Counted(row) {
      var key, p := GroupKey(row), Before(g, row);
      forall i | 0 <= i < |rows'| && Counted(rows'[i])
        ensures GroupKey(rows'[i]) in g'.byKey
        ensures Covered(g'.byKey[GroupKey(rows'[i])].sizes, Field(rows'[i], "Size"))
      {
        if i == |rows| {
          AddSizeEntries(p.sizes, Field(row, "Size"));
        } else if GroupKey(rows[i]) == key {
          AddSizeCovers(p.sizes, Field(row, "Size"), Field(rows[i], "Size"));
        }
      }
    }
  }

  /** No row of group `key` has a size that `size` matches when no entry of the group matches it. */
  lemma {:induction false} NoneMatching(rows: seq<RawRow>, g: Groups, key: string, size: string)
    requires AllCovered(rows, g)
    requires key in g.byKey ==>
      forall j :: 0 <= j < |g.byKey[key].sizes| ==> !MatchSizes(g.byKey[key].sizes[j].size, size)
    ensures Matching(rows, key, size) == 0
    decreases |rows|
  {
    if rows != [] {
      var last := rows[|rows| - 1];
      NoneMatching(rows[..|rows| - 1], g, key, size);
      if InGroup(key)(last) {
        assert Counted(rows[|rows| - 1]);
        UncoveredSize(g.byKey[key].sizes, size, Field(last, "Size"));
      }
    }
  }

  /** A size that no entry matches does not match a size some entry matches. */
  lemma UncoveredSize(sizes: seq<SizeEntry>, size: string, other: string)
    requires Covered(sizes, other)
    requires forall j :: 0 <= j < |sizes| ==> !MatchSizes(sizes[j].size, size)
    ensures !MatchSizes(size, other)
  {
    var j :| 0 <= j < |sizes| && MatchSizes(sizes[j].size, other);
    MatchSizesIff(size, other);
    MatchSizesIff(sizes[j].size, other);
    MatchSizesIff(sizes[j].size, size);
  }

  /** Reading one more row adds one to a count when the row is of the group and its size matches. */
  lemma MatchingAppend(rows: seq<RawRow>, row: RawRow, key: string, size: string)
    ensures Matching(rows + [row], key, size) ==
      Matching(rows, key, size) + (if InGroup(key)(row) && MatchSizes(size, Field(row, "Size")) then 1 else 0)
  {
    assert (rows + [row])[..|rows|] == rows;
  }

  lemma StepTallies(rows: seq<RawRow>, g: Groups, row: RawRow)
    requires SizesAllOk(g) && AllCovered(rows, g) && Tallies(rows, g) && Step(g, row).Some?
    ensures Tallies(rows + [row], Step(g, row).value)
  {
    var g' := Step(g, row).value;
    forall k, j | k in g'.byKey && 0 <= j < |g'.byKey[k].sizes|
      ensures g'.byKey[k].sizes[j].quantity == Matching(rows + [row], k, g'.byKey[k].sizes[j].size)
    {
      StepTally(rows, g, row, k, j);
    }
  }

  /** One size entry after a step still counts the rows of its group whose size it matches. */
  lemma StepTally(rows: seq<RawRow>, g: Groups, row: RawRow, k: string, j: nat)
    requires SizesAllOk(g) && AllCovered(rows, g) && Tallies(rows, g) && Step(g, row).Some?
    requires k in Step(g, row).value.byKey && j < |Step(g, row).value.byKey[k].sizes|
    ensures var e := Step(g, row).value.byKey[k].sizes[j];
      e.quantity == Matching(rows + [row], k, e.size)
  {
    if !Counted(row) || k != GroupKey(row) {
      StepTallyOther(rows, g, row, k, j);
    } else if j == |Before(g, row).sizes| {
      StepTallyNew(rows, g, row);
    } else {
      StepTallyOld(rows, g, row, j);
    }
  }

  /** Entries of other groups keep their counts. */
  lemma StepTallyOther(rows: seq<RawRow>, g: Groups, row: RawRow, k: string, j: nat)
    requires Tallies(rows, g) && Step(g, row).Some?
    requires !Counted(row) || k != GroupKey(row)
    requires k in Step(g, row).value.byKey && j < |Step(g, row).value.byKey[k].sizes|
    ensures var e := Step(g, row).value.byKey[k].sizes[j];
      e.quantity == Matching(rows + [row], k, e.size)
  {
    var g' := Step(g, row).value;
    assert g'.byKey[k] == g.byKey[k];
    var e := g'.byKey[k].sizes[j];
    MatchingAppend(rows, row, k, e.size);
    assert !InGroup(k)(row);
  }

  /** A new entry counts the one row that created it. */
  lemma StepTallyNew(rows: seq<RawRow>, g: Groups, row: RawRow)
    requires SizesAllOk(g) && AllCovered(rows, g) && Step(g, row).Some? && Counted(row)
    requires var k := GroupKey(row);
      |Step(g, row).value.byKey[k].sizes| > |Before(g, row).sizes|
    ensures var k := GroupKey(row);
      var e := Step(g, row).value.byKey[k].sizes[|Before(g, row).sizes|];
      e.quantity == Matching(rows + [row], k, e.size)
  {
    var k, p, size := GroupKey(row), Before(g, row), Field(row, "Size");
    var sizes := Step(g, row).value.byKey[k].sizes;
    assert sizes == AddSize(p.sizes, size);
    AddSizeEntries(p.sizes, size);
    var e := sizes[|p.sizes|];
    assert e == SizeEntry(size, 1);
    MatchingAppend(rows, row, k, size);
    NoneMatching(rows, g, k, size);
    MatchSizesReflexive(size);
  }

  /** An existing entry of the row's group counts the row exactly when it matches the row's size. */
  lemma StepTallyOld(rows: seq<RawRow>, g: Groups, row: RawRow, j: nat)
    requires SizesAllOk(g) && Tallies(rows, g) && Step(g, row).Some? && Counted(row)
    requires j < |Before(g, row).sizes|
    ensures var k := GroupKey(row);
      var e := Step(g, row).value.byKey[k].sizes[j];
      e.quantity == Matching(rows + [row], k, e.size)
  {
    var k, p, size := GroupKey(row), Before(g, row), Field(row, "Size");
    var sizes := Step(g, row).value.byKey[k].sizes;
    assert sizes == AddSize(p.sizes, size);
    AddSizeEntries(p.sizes, size);
    assert k in g.byKey && p == g.byKey[k];
    var e := sizes[j];
    assert e.size == p.sizes[j].size;
    MatchingAppend(rows, row, k, e.size);
    MatchSizesSymmetric(e.size, size);
  }

  lemma CountedAppend(rows: seq<RawRow>, row: RawRow)
    ensures |Filter(rows + [row], Counted)| == |Filter(rows, Counted)| + (if Counted(row) then 1 else 0)
  {
    FilterConcat(rows, [row], Counted);
    assert Filter([row], Counted) == if Counted(row) then [row] else [];
  }

  /** A counted row adds one pair under its key and changes no other key's pairs. */
  lemma StepKeyTotal(g: Groups, row: RawRow)
    requires Counted(row) && Step(g, row).Some?
    ensures var kt, kt' := KeyTotal(g.byKey), KeyTotal(Step(g, row).value.byKey);
      && kt'(GroupKey(row)) == (if GroupKey(row) in g.byKey then kt(GroupKey(row)) else 0) + 1
      && forall y :: y != GroupKey(row) ==> kt'(y) == kt(y)
  {
    AddSizeTotal(Before(g, row).sizes, Field(row, "Size"));
  }

  lemma StepTotal(rows: seq<RawRow>, g: Groups, row: RawRow)
    requires KeysOk(g) && TotalOk(rows, g) && Step(g, row).Some?
    ensures TotalOk(rows + [row], Step(g, row).value)
  {
    var g' := Step(g, row).value;
    CountedAppend(rows, row);
    if Counted(row) {
      var key := GroupKey(row);
      StepKeyTotal(g, row);
      if key in g.byKey {
        SumOfBump(g.order, key, KeyTotal(g.byKey), KeyTotal(g'.byKey));
      } else {
        SumOfAppendFresh(g.order, key, KeyTotal(g.byKey), KeyTotal(g'.byKey));
      }
    }
  }

  /** Everything the grouping object records, after any prefix of rows that does not throw. */
  ghost predicate Records(rows: seq<RawRow>, g: Groups) {
    && KeysOk(g) && SizesAllOk(g) && FirstRows(rows, g) && InFirstRowOrder(rows, g)
    && AllCovered(rows, g) && Tallies(rows, g) && TotalOk(rows, g)
  }

  lemma StepRecords(rows: seq<RawRow>, g: Groups, row: RawRow)
    requires Records(rows, g) && Step(g, row).Some?
    ensures Records(rows + [row], Step(g, row).value)
  {
    StepKeys(g, row);
    StepFirstRows(rows, g, row);
    StepOrder(rows, g, row);
    StepSizes(g, row);
    StepCovered(rows, g, row);
    StepTallies(rows, g, row);
    StepTotal(rows, g, row);
  }

  lemma RecordsInitially()
    ensures Records([], Groups([], map[]))
  {
    assert Filter([], Counted) == [];
  }

  /** Reading one more row through `Grouped` keeps the records. */
  lemma GroupedStep(rows: seq<RawRow>, row: RawRow)
    requires Grouped(rows + [row]).Some?
    requires Grouped(rows).Some? && Records(rows, Grouped(rows).value)
    ensures Records(rows + [row], Grouped(rows + [row]).value)
  {
    var g := Grouped(rows).value;
    assert (rows + [row])[..|rows|] == rows;
    assert Grouped(rows + [row]) == Step(g, row);
    StepRecords(rows, g, row);
  }

  lemma {:induction false} GroupedRecords(rows: seq<RawRow>)
    requires Grouped(rows).Some?
    ensures Records(rows, Grouped(rows).value)
    decreases |rows|
  {
    if rows == [] {
      RecordsInitially();
    } else {
      var prefix, row := rows[..|rows| - 1], rows[|rows| - 1];
      assert prefix + [row] == rows;
      GroupedRecords(prefix);
      GroupedStep(prefix, row);
    }
  }

  // ---------------------------------------------------------------------------
  // What `groupShoesBySKU` returns

  /** A row that makes the `forEach` throw: its key names an inherited member. */
  predicate Throws(row: RawRow) {
    Counted(row) && GroupKey(row) in InheritedKeys
  }

  /** Grouping throws exactly when some counted row has an inherited member's name as its key. */
  lemma {:induction false} GroupedThrows(rows: seq<RawRow>)
    ensures Grouped(rows).None? <==> exists i :: 0 <= i < |rows| && Throws(rows[i])
    decreases |rows|
  {
    if rows != [] {
      var prefix, row := rows[..|rows| - 1], rows[|rows| - 1];
      GroupedThrows(prefix);
      if Grouped(prefix).None? {
        var i :| 0 <= i < |prefix| && Throws(prefix[i]);
        assert rows[i] == prefix[i];
      } else if !Throws(row) {
        forall i | 0 <= i < |rows|
          ensures !Throws(rows[i])
        {
          if i < |prefix| {
            assert rows[i] == prefix[i];
          }
        }
      }
    }
  }

  lemma GroupShoesThrows(rows: seq<RawRow>)
    ensures GroupShoes(rows).None? <==> exists i :: 0 <= i < |rows| && Throws(rows[i])
  {
    GroupedThrows(rows);
  }

  /** Grouping one more row is one more step, unless a row has already thrown. */
  lemma GroupedAppend(rows: seq<RawRow>, row: RawRow)
    ensures Grouped(rows + [row]) == if Grouped(rows).None? then None else Step(Grouped(rows).value, row)
  {
    assert (rows + [row])[..|rows|] == rows;
  }

  /** Rows without a Name or a Size change nothing. */
  lemma {:induction false} GroupedSkips(rows: seq<RawRow>)
    ensures Grouped(rows) == Grouped(Filter(rows, Counted))
    decreases |rows|
  {
    if rows != [] {
      var prefix, row := rows[..|rows| - 1], rows[|rows| - 1];
      var kept := Filter(prefix, Counted);
      assert prefix + [row] == rows;
      GroupedSkips(prefix);
      FilterConcat(prefix, [row], Counted);
      GroupedAppend(prefix, row);
      if Counted(row) {
        assert Filter([row], Counted) == [row];
        GroupedAppend(kept, row);
      } else {
        assert Filter([row], Counted) == [];
        assert kept + [] == kept;
      }
    }
  }

  lemma GroupShoesSkips(rows: seq<RawRow>)
    ensures GroupShoes(rows) == GroupShoes(Filter(rows, Counted))
  {
    GroupedSkips(rows);
  }

  /** Each recorded product carries the key it is stored under. */
  lemma RecordedKeys(rows: seq<RawRow>, g: Groups)
    requires FirstRows(rows, g)
    ensures forall k :: k in g.byKey ==> ProductKey(g.byKey[k]) == k
  {
    forall k | k in g.byKey
      ensures ProductKey(g.byKey[k]) == k
    {
      var row := rows[FirstRow(rows, k)];
      ProductKeyOfNew(row);
      assert ProductKey(g.byKey[k]) == ProductKey(Header(g.byKey[k]));
    }
  }

  /** The products are listed in `Object.values` order of their keys. */
  lemma GroupShoesValues(rows: seq<RawRow>)
    requires GroupShoes(rows).Some?
    ensures var g, ps := Grouped(rows).value, GroupShoes(rows).value;
      && Records(rows, g)
      && |ps| == |g.order|
      && forall i :: 0 <= i < |ps| ==>
           KeyOrder(g.order)[i] in g.byKey && ps[i] == g.byKey[KeyOrder(g.order)[i]]
           && ProductKey(ps[i]) == KeyOrder(g.order)[i]
  {
    var g := Grouped(rows).value;
    var keys := KeyOrder(g.order);
    GroupedRecords(rows);
    RecordedKeys(rows, g);
    KeyOrderPermutes(g.order);
    assert |keys| == |multiset(keys)| == |multiset(g.order)| == |g.order|;
    KeyOrderKeys(g);
    assert GroupShoes(rows).value == Values(keys, g.byKey);
  }

  /** No two products share a key. */
  lemma GroupShoesDistinct(rows: seq<RawRow>)
    requires GroupShoes(rows).Some?
    ensures var ps := GroupShoes(rows).value;
      forall i, j :: 0 <= i < j < |ps| ==> ProductKey(ps[i]) != ProductKey(ps[j])
  {
    var g := Grouped(rows).value;
    GroupShoesValues(rows);
    KeyOrderPermutes(g.order);
    DistinctPermutation(KeyOrder(g.order), g.order);
  }

  /** A product's name, SKU, image and price come from the first row of its group. */
  lemma GroupShoesFirstRow(rows: seq<RawRow>)
    requires GroupShoes(rows).Some?
    ensures var ps := GroupShoes(rows).value;
      forall i :: 0 <= i < |ps| ==>
        && FirstRow(rows, ProductKey(ps[i])) < |rows|
        && Header(ps[i]) == NewProduct(rows[FirstRow(rows, ProductKey(ps[i]))])
  {
    GroupShoesValues(rows);
  }

  /** Within a product, no two size entries match, and every quantity is at least one. */
  lemma GroupShoesSizes(rows: seq<RawRow>)
    requires GroupShoes(rows).Some?
    ensures var ps := GroupShoes(rows).value;
      forall i :: 0 <= i < |ps| ==> SizesOk(ps[i].sizes)
  {
    GroupShoesValues(rows);
  }

  /** Each quantity counts the rows of its product whose size matches the entry's. */
  lemma GroupShoesCounts(rows: seq<RawRow>)
    requires GroupShoes(rows).Some?
    ensures var ps := GroupShoes(rows).value;
      forall i, j :: 0 <= i < |ps| && 0 <= j < |ps[i].sizes| ==>
        ps[i].sizes[j].quantity == Matching(rows, ProductKey(ps[i]), ps[i].sizes[j].size)
  {
    GroupShoesValues(rows);
  }

  /** Every counted row is accounted for: its product exists and has an entry matching its size. */
  lemma GroupShoesComplete(rows: seq<RawRow>)
    requires GroupShoes(rows).Some?
    ensures var ps := GroupShoes(rows).value;
      forall r :: 0 <= r < |rows| && Counted(rows[r]) ==>
        exists i :: 0 <= i < |ps| && ProductKey(ps[i]) == GroupKey(rows[r]) && Covered(ps[i].sizes, Field(rows[r], "Size"))
  {
    var g, ps := Grouped(rows).value, GroupShoes(rows).value;
    GroupShoesValues(rows);
    KeyOrderPermutes(g.order);
    forall r | 0 <= r < |rows| && Counted(rows[r])
      ensures exists i :: 0 <= i < |ps| && ProductKey(ps[i]) == GroupKey(rows[r]) && Covered(ps[i].sizes, Field(rows[r], "Size"))
    {
      var key := GroupKey(rows[r]);
      assert key in multiset(KeyOrder(g.order));
      var i :| 0 <= i < |KeyOrder(g.order)| && KeyOrder(g.order)[i] == key;
      assert ProductKey(ps[i]) == key;
    }
  }

  lemma {:induction false} ValuesTotal(keys: seq<string>, byKey: map<string, Product>)
    requires forall i :: 0 <= i < |keys| ==> keys[i] in byKey
    ensures SumOf(Values(keys, byKey), ProductTotal) == SumOf(keys, KeyTotal(byKey))
  {
    if keys != [] {
      ValuesTotal(keys[1..], byKey);
      assert Values(keys, byKey)[1..] == Values(keys[1..], byKey);
    }
  }

  /** The pairs of all products together are exactly the counted rows. */
  lemma GroupShoesTotal(rows: seq<RawRow>)
    requires GroupShoes(rows).Some?
    ensures SumOf(GroupShoes(rows).value, ProductTotal) == |Filter(rows, Counted)|
  {
    var g := Grouped(rows).value;
    GroupShoesValues(rows);
    ValuesTotal(KeyOrder(g.order), g.byKey);
    KeyOrderPermutes(g.order);
    SumOfPermutation(KeyOrder(g.order), g.order, KeyTotal(g.byKey));
  }

  /** Products under array-index keys ("42") come first, in numeric order of the key. */
  lemma GroupShoesIndicesFirst(rows: seq<RawRow>)
    requires GroupShoes(rows).Some?
    ensures var ps := GroupShoes(rows).value;
      forall i, j :: 0 <= i < j < |ps| && IsArrayIndex(ProductKey(ps[j])) ==>
        IsArrayIndex(ProductKey(ps[i])) && IndexValue(ProductKey(ps[i])) <= IndexValue(ProductKey(ps[j]))
  {
    GroupShoesValues(rows);
    KeyOrderIndicesFirst(Grouped(rows).value.order);
  }

  /** When no key is an array index, products are listed in the order their first rows appear. */
  lemma GroupShoesOrder(rows: seq<RawRow>)
    requires GroupShoes(rows).Some?
    requires forall r :: 0 <= r < |rows| && Counted(rows[r]) ==> !IsArrayIndex(GroupKey(rows[r]))
    ensures var ps := GroupShoes(rows).value;
      forall i, j :: 0 <= i < j < |ps| ==> FirstRow(rows, ProductKey(ps[i])) < FirstRow(rows, ProductKey(ps[j]))
  {
    var g := Grouped(rows).value;
    GroupShoesValues(rows);
    forall i | 0 <= i < |g.order|
      ensures !IsArrayIndex(g.order[i])
    {
      var k := g.order[i];
      assert InGroup(k)(rows[FirstRow(rows, k)]);
    }
    KeyOrderNoIndices(g.order);
  }
}
