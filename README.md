# Boas shop storefront — a Dafny model

`boas-shop.js` drives a one-page shoe shop. It downloads the stock
as a CSV feed and parses it, with Papa Parse or, failing that, a hand-written
splitter. It drops withdrawn rows: those whose notes contain "consign", "hold"
or "hide", ignoring case (so "hidden" or "Hiding" keeps a row). It then groups
the rows into products keyed by name and SKU, each with size entries and
quantities, a price with the shop's fee added, and an image link. The page shows the products with a text search, a size filter that treats
"42,5" and "42.5" alike, and a price sort in either direction.

This project models that core and proves what it promises:

- `Strings`, `Numbers`, `Seqs`: the JavaScript built-ins the core relies on
  (`trim`, `toLowerCase`, `includes`, `replace`, `split`, `parseFloat`,
  `Math.round`, `filter`, `find`, a stable sort) and their laws.
- `Csv`: `parseCSVManually` and `parseData`.
- `Availability`: `filterData`.
- `Sizes`: `matchSizes`.
- `Pricing`: `adjustPrice` and `extractPrice`.
- `Images`: `getValidImageUrl`.
- `Aggregate`: `groupShoesBySKU`. It is a function (`GroupShoes`), plus the
  loop it really is (`GroupShoesBySku`, with `AddShoe` as the `forEach` body),
  proved equal to that function.
- `View`: what `filterShoes` selects, what `sortShoes` displays, and the size
  selection.
- `Shop`: the page state (`allShoes`, `selectedSizes`, `currentSort`,
  `currentFilteredShoes`) as the class `Storefront`, with its handlers as
  methods, and the retrying loader `loadDataWithRetry`.

The page state keeps one invariant (`Storefront.Valid`): a computed filtered
list is the current selection of the stock, and the display is the current
list in the current order.

## Model

| member | source | states |
|---|---|---|
| Csv.ParseManually | boas-shop.js:168-180 | no rows when there are fewer than two non-blank lines; otherwise one row per non-blank data line |
| Csv.ParseManuallyRow | boas-shop.js:173-179 | unfolds the `map` over the data lines: row k is built from the headers and the comma-split (k+1)-th non-blank line (BuildRow states what such a row holds) |
| Csv.ParseManuallyColumns | boas-shop.js:172-178 | every row has exactly one key per trimmed header (a `__proto__` header never becomes a key) |
| Csv.ParseManuallyMissingValue | boas-shop.js:176 | a header with no value on the line reads as the empty string |
| Csv.BuildRow | boas-shop.js:175-178 | the row's keys are the headers; each header that is not repeated later holds its trimmed cell, or '' |
| Csv.TrimAll | boas-shop.js:172 | each header is the trimmed part of the first line |
| Csv.ParseManuallyRoundTrip | boas-shop.js:168-180 | CSV text written from distinct plain headers and plain records parses back to those records, one row each |
| Csv.RecordRow | boas-shop.js:173-179 | the k-th written record is read back in row k |
| Csv.WrittenRow | boas-shop.js:169-174 | written text has one non-blank line per record plus the header line, and its headers are read back |
| Csv.CsvTextLines | boas-shop.js:169 | splitting written text on newlines and dropping blank lines gives back its lines |
| Csv.PlainLine | boas-shop.js:174 | a plain record joined with commas splits back into its cells |
| Csv.TrimAllPlain | boas-shop.js:172 | trimming cells that have no surrounding blanks changes nothing |
| Csv.ParseData | boas-shop.js:151-166 | Papa Parse's rows when it returns at least one; the fallback parser's rows when it throws or returns none |
| Csv.ParseDataFallback | boas-shop.js:164-165 | when Papa Parse gives nothing, written records are read back by the fallback |
| Availability.FilterData | boas-shop.js:182-190 | a row is kept if and only if it is in the feed and its notes are empty or mention none of consign, hold, hide (ignoring case) |
| Availability.Withdrawn | boas-shop.js:185-188 | notes withdraw a row when their lower-cased text contains consign, hold or hide; such notes are at least four characters long |
| Availability.Available | boas-shop.js:184-188 | the `filter` callback: empty notes keep the row, otherwise the row is kept when its lower-cased notes withdraw nothing; notes shorter than four characters always keep it |
| Availability.FilterDataOrder | boas-shop.js:183 | the kept rows are a subsequence of the feed |
| Availability.FilterDataPartition | boas-shop.js:183 | kept rows and dropped rows together are the feed, as a multiset |
| Availability.NoNotesAvailable | boas-shop.js:184 | a row without notes is kept |
| Availability.OnHoldWithdrawn | boas-shop.js:185-188 | notes "On Hold" drop the row |
| Availability.GreatConditionAvailable | boas-shop.js:185-188 | notes "Great condition" keep the row |
| Availability.HiddenAvailable | boas-shop.js:185-188 | notes "hidden" keep the row: the test is for the substring "hide", which "hidden" does not contain |
| Availability.NoWithdrawingLetter | boas-shop.js:185-188 | notes with no h and no s, in either case, keep the row |
| Availability.WithdrawnIgnoresCase | boas-shop.js:185 | rows whose notes differ only in letter case are kept or dropped alike |
| Sizes.Normalize | boas-shop.js:195 | the normal form has no comma and is no longer than the input |
| Sizes.MatchSizes | boas-shop.js:193-205 | `matchSizes`: equal normal forms, or equal once the first dot of one normal form is written as a comma; sizes with equal normal forms always match |
| Sizes.MatchSizesIff | boas-shop.js:193-205 | two sizes match if and only if their normal forms are equal |
| Sizes.SwapNeverMatches | boas-shop.js:201-202 | turning a dot of one comma-free form into a comma never produces another comma-free form unless they were already equal |
| Sizes.MatchSizesReflexive | boas-shop.js:198 | every size matches itself |
| Sizes.MatchSizesSymmetric | boas-shop.js:193-205 | matching does not depend on argument order |
| Sizes.MatchSizesTransitive | boas-shop.js:193-205 | matching is transitive |
| Sizes.MatchSizesDecimalComma | boas-shop.js:195-198 | a size with a decimal comma matches the same size with a decimal point |
| Sizes.MatchSizesExample | boas-shop.js:193-205 | "42,5" matches "42.5" |
| Sizes.MatchSizesDistinct | boas-shop.js:193-205 | "42" does not match "42.5" |
| Sizes.NormalizeKeepsLength | boas-shop.js:195 | a trimmed, comma-free size keeps its length when normalised |
| Pricing.AdjustPrice | boas-shop.js:247-273 | "N/A" exactly when the text is empty or does not parse as a number; otherwise "€" and the parsed price p plus max(5, 4% of p), rounded |
| Pricing.Cleaned | boas-shop.js:252-256 | the text given to parseFloat: with a comma, the first comma made a point and then the first " €" removed; without one, only the first " €" removed; never longer than the price, and unchanged when it has neither |
| Pricing.OriginalPrice | boas-shop.js:248-258 | the number a price stands for: none for an empty price (`!price`), otherwise parseFloat of the cleaned text, none where that is NaN |
| Pricing.AdjustedValue | boas-shop.js:261-267 | the adjusted price is max(p + 5, 1.04 p), so at least 5 more |
| Pricing.AdjustedAtLeastFiveMore | boas-shop.js:261-270 | the rounded adjusted price exceeds p + 4.5 |
| Pricing.PercentageFeeWhenLarge | boas-shop.js:261-267 | when 4% is at least 5, the fee is exactly 4% |
| Pricing.AdjustPriceMonotone | boas-shop.js:261-270 | a higher price never gets a lower adjusted price, before or after rounding |
| Pricing.AdjustWholePrice | boas-shop.js:252-272 | "n €" shows € followed by round(max(n + 5, 1.04 n)) |
| Pricing.AdjustPriceHundred | boas-shop.js:247-273 | "100 €" shows "€105" |
| Pricing.AdjustPriceThousand | boas-shop.js:247-273 | "1000 €" shows "€1040" |
| Pricing.AdjustPriceNotANumber | boas-shop.js:248-258 | an empty price, or a price starting with a letter, shows "N/A" |
| Pricing.CleanedDigits | boas-shop.js:255 | removing " €" from "n €" leaves the digits |
| Pricing.DecimalCommaReplaced | boas-shop.js:252-253 | the first comma of "w,f €" is the decimal comma, and it becomes a point |
| Pricing.DecimalPointEuroDropped | boas-shop.js:253 | the first " €" of "w.f €" is the trailing one, and it is removed |
| Pricing.CleanedDecimalComma | boas-shop.js:252-253 | a price "w,f €" reaches parseFloat as "w.f" |
| Pricing.OriginalDecimalComma | boas-shop.js:248-258 | a price "w,f €" is read as the number "w.f" |
| Pricing.AdjustPriceOf | boas-shop.js:258-272 | unfolds the value case of AdjustPrice: a price that parses to p shows "€" and the rounded adjusted value of p |
| Pricing.AdjustDecimalCommaPrice | boas-shop.js:247-273 | a price "w,f €" shows the rounded adjusted value of w plus the fraction f |
| Pricing.AdjustPriceDecimalComma | boas-shop.js:247-273 | "42,50 €" shows "€48" (47.5, rounded up) |
| Pricing.FormatPrice | boas-shop.js:272 | the text starts with € |
| Pricing.ExtractPrice | boas-shop.js:365-369 | the key is never negative, and "N/A" has key 0 |
| Pricing.KeepDigitsAndDots | boas-shop.js:367 | only digits and dots remain, and text made only of them is unchanged |
| Pricing.ExtractFormattedPrice | boas-shop.js:365-369 | the sort key of a displayed price "€n" is the absolute value of n |
| Pricing.ExtractAdjustedPrice | boas-shop.js:247-273 | the sort key of an adjusted price is the absolute rounded adjusted amount |
| Numbers.ParseFloat | boas-shop.js:253-258 | parseFloat gives a number exactly when a digit, or a dot and a digit, follows the blanks and an optional sign; it is negative only after '-' |
| Numbers.ParseFloatDigits | boas-shop.js:255 | parseFloat of a digit string is its decimal value |
| Numbers.Fraction | boas-shop.js:253 | the digits after a decimal point stand for a value in [0, 1) |
| Numbers.ParseFloatDecimal | boas-shop.js:253 | parseFloat of "w.f" is w plus the fraction f |
| Numbers.ParseUnsignedDecimal | boas-shop.js:253 | the unsigned literal "w.f" is w plus the fraction f |
| Numbers.ParseFloatFromDigit | boas-shop.js:253 | text starting with a digit is read with no sign and no blanks to skip |
| Numbers.DecimalParts | boas-shop.js:253 | in "w.f" the digits stop at the point, and the fraction digits run to the end |
| Numbers.ParseUnsignedPointed | boas-shop.js:253 | digits, a point and digits with nothing after are read with no exponent |
| Numbers.ParseUnsignedParts | boas-shop.js:253 | the same, with the whole and fraction digits named |
| Numbers.ParseFloatNoNumber | boas-shop.js:258 | text that starts with something other than a blank, a sign, a dot or a digit is NaN |
| Numbers.ParseFloatUnsignedText | boas-shop.js:367-368 | parseFloat of digits and dots is never negative |
| Numbers.MathRound | boas-shop.js:270 | the result is within half of x, rounding halves up |
| Numbers.MathRoundMonotone | boas-shop.js:270 | rounding preserves order |
| Images.GetValidImageUrl | boas-shop.js:275-281 | the placeholder for an empty link, other non-Drive links unchanged, never empty |
| Images.DriveShareLink | boas-shop.js:277-278 | a Drive "/view?usp=sharing" link becomes the "/uc?export=view" link |
| Images.DriveLinkWithoutShareSuffix | boas-shop.js:277-280 | a link without the share suffix is returned unchanged |
| Aggregate.NewProduct | boas-shop.js:219-226 | a new group takes the row's name, its SKU or "-", a non-empty image link and no sizes |
| Aggregate.ProductKeyOfNew | boas-shop.js:213-222 | a product's name and SKU give back the key of the row that created it |
| Aggregate.AddSize | boas-shop.js:229-240 | the list keeps its length, or exactly one entry of quantity 1 is appended; the result is never empty (which entry gains one is stated by AddSizeEntries) |
| Aggregate.AddSizeEntries | boas-shop.js:229-240 | only the first matching entry gains one; a new entry is added only when none matches; the size is then covered |
| Aggregate.AddSizeOk | boas-shop.js:229-240 | entries stay pairwise non-matching with quantities of at least 1 |
| Aggregate.AddSizeCovers | boas-shop.js:229-240 | a size already covered stays covered |
| Aggregate.AddSizeTotal | boas-shop.js:233-239 | each row adds exactly one pair |
| Aggregate.Step | boas-shop.js:210-241 | the `forEach` body for one row: it throws exactly when the row is counted and its key names an inherited member; otherwise no group is lost and a counted row's group exists afterwards |
| Aggregate.Grouped | boas-shop.js:208-241 | the grouping object after the rows in order, or none once a row has thrown; its own keys are listed once each in insertion order, at most one per row |
| Aggregate.GroupShoes | boas-shop.js:207-244 | `groupShoesBySKU` as a function: `Object.values` of the grouping object, or none when it throws; never more products than rows |
| Aggregate.AddShoe | boas-shop.js:210-241 | one `forEach` step: it throws exactly when the model's step does, and otherwise gives the same grouping object |
| Aggregate.GroupShoesBySku | boas-shop.js:207-244 | the loop returns what `GroupShoes` specifies |
| Aggregate.GroupShoesThrows | boas-shop.js:219-231 | grouping throws if and only if a counted row's key names an inherited member of Object.prototype |
| Aggregate.GroupShoesSkips | boas-shop.js:211 | rows without a Name or a Size change nothing |
| Aggregate.GroupShoesValues | boas-shop.js:243 | products are listed in Object.values key order, one per key, each under its own key |
| Aggregate.GroupShoesDistinct | boas-shop.js:213-227 | no two products share a key |
| Aggregate.GroupShoesFirstRow | boas-shop.js:219-226 | name, SKU, image and price come from the first row of the group |
| Aggregate.GroupShoesSizes | boas-shop.js:229-240 | within a product no two size entries match, and every quantity is at least 1 |
| Aggregate.GroupShoesCounts | boas-shop.js:229-240 | each quantity counts the rows of its product whose size matches the entry's |
| Aggregate.GroupShoesComplete | boas-shop.js:210-241 | every counted row has its product and an entry matching its size |
| Aggregate.GroupShoesTotal | boas-shop.js:207-244 | the quantities of all products add up to the number of counted rows |
| Aggregate.GroupShoesIndicesFirst | boas-shop.js:243 | products under array-index keys come first, in numeric order |
| Aggregate.GroupShoesOrder | boas-shop.js:243 | with no array-index key, products follow the order of their first rows |
| Aggregate.KeyOrderPermutes | boas-shop.js:243 | Object.values lists every own key exactly once |
| Aggregate.GroupedRecords | boas-shop.js:210-241 | after any prefix of rows, the grouping object keeps all the invariants above |
| View.Arrange | boas-shop.js:345-363 | a permutation of the list, ascending by price for "price-asc", descending for "price-desc", unchanged otherwise |
| View.ArrangeStable | boas-shop.js:350-359 | shoes of equal price keep their relative order, whatever the sort type |
| View.ArrangeAscendingUnique | boas-shop.js:351-352 | any ordered, stable rearrangement is the ascending display |
| View.ArrangeDescendingUnique | boas-shop.js:354-355 | any ordered, stable rearrangement is the descending display |
| View.ArrangeIdempotent | boas-shop.js:345-363 | sorting the sorted list again by the same type changes nothing |
| View.Select | boas-shop.js:485-499 | the filtered list is no longer than the stock |
| View.SelectMember | boas-shop.js:485-499 | a shoe is listed if and only if it is in the stock, its name or SKU contains the lowered search text, and no size is selected or it has a matching size |
| View.SelectOrder | boas-shop.js:488 | the filtered list is a subsequence of the stock |
| View.SelectEverything | boas-shop.js:485-499 | an empty search with no size selected lists the whole stock |
| View.HasMatchingSize | boas-shop.js:493-495 | selecting a size selects the same shoes as any size matching it |
| View.SelectMoreSizes | boas-shop.js:492-496 | with some size selected, selecting another only adds shoes |
| View.Without | boas-shop.js:531-532 | removing a chip keeps every other selected size and only those |
| View.WithoutOrder | boas-shop.js:532 | the remaining sizes keep their order |
| View.ToggleSize | boas-shop.js:461-466 | a selected size is unselected, an unselected one is appended at the end, others are untouched |
| View.ToggleTwice | boas-shop.js:461-466 | clicking an unselected size twice restores the selection |
| Shop.Storefront.constructor | boas-shop.js:58-61 | empty stock and selection, sort "default", no filtered list |
| Shop.Storefront.SortShoes | boas-shop.js:345-363 | records the sort type and displays the current list in that order |
| Shop.Storefront.FilterShoes | boas-shop.js:485-502 | stores the selection and displays it in the current order, keeping the invariant |
| Shop.Storefront.Search | boas-shop.js:384 | typing in the search box filters again: the list shown is Select of the stock with the new text and the selected sizes |
| Shop.Storefront.ToggleSizeOption | boas-shop.js:461-468 | toggles the size and filters again: the list shown is Select of the stock with the search text and the new sizes |
| Shop.Storefront.RemoveSizeChip | boas-shop.js:531-534 | removes the size and filters again: the list shown is Select of the stock with the search text and the remaining sizes |
| Shop.Storefront.ResetFilters | boas-shop.js:539-545 | clears the search, the sizes and the filtered list, and shows the whole stock in its own order |
| Shop.Storefront.ProcessData | boas-shop.js:283-287 | drops the filtered list, displays the stock in the current order and hides the loading indicator |
| Shop.Load | boas-shop.js:134-148 | what one `loadData` stores: nothing after an HTTP failure, otherwise the grouped available rows of the parsed text, at most one product per parsed row, or nothing when grouping throws |
| Shop.Storefront.LoadData | boas-shop.js:134-148 | succeeds exactly when the download and the grouping do; the stock is then the grouped available rows; a failure changes nothing |
| Shop.Storefront.ShowError | boas-shop.js:547-553 | shows the error and changes nothing else |
| Shop.RetryFrom | boas-shop.js:120-131 | the rest of the `while` loop after `made` failed attempts: it stops at the first success or when `maxAttempts` is reached, never makes more than `maxAttempts` attempts in all, and a success is one attempt beyond `made` at least |
| Shop.Retry | boas-shop.js:116-132 | `loadDataWithRetry(maxAttempts)` as a run from no attempts: at most maxAttempts attempts (none when it is not positive), and at least one when a stock is loaded |
| Shop.Storefront.LoadDataWithRetry | boas-shop.js:116-132 | the run `Retry` describes: the stock is assigned only after a success; when every attempt fails, the error is shown if at least one attempt was allowed |
| Shop.RetrySucceeds | boas-shop.js:116-132 | a stock is loaded if and only if one of the first maxAttempts attempts succeeds; it is the first successful one, and nothing is tried after it; otherwise every allowed attempt was made |
| Shop.RetryBound | boas-shop.js:120 | at most maxAttempts attempts, and none when maxAttempts is not positive |
| Shop.RetryFromFirstSuccess | boas-shop.js:120-124 | the loop stops at the first success |
| Shop.RetryFromAllFail | boas-shop.js:120-130 | a run that loads nothing has tried every allowed attempt |
| Seqs.FilterMember | boas-shop.js:183 | an element is in `filter`'s result if and only if it is in the input and passes |
| Seqs.FilterIsSubsequence | boas-shop.js:183 | `filter` keeps the input's order |
| Seqs.SortBySorted | boas-shop.js:352 | the stable sort returns an ordered permutation |
| Seqs.SortByStable | boas-shop.js:352 | the stable sort keeps the order of elements with equal keys |
| Seqs.SortByIsTheStableSort | boas-shop.js:352 | an ordered permutation that keeps equal keys in order is unique |
| Seqs.Find | boas-shop.js:229-231 | the index of the first element that passes, or the length when none does |
| Strings.TrimEmpty | boas-shop.js:169 | a line trims to nothing if and only if it is all blanks |
| Strings.TrimIdempotent | boas-shop.js:172 | trimming twice is trimming once |
| Strings.LowerIdempotent | boas-shop.js:185 | lowering twice is lowering once |
| Strings.SplitJoin | boas-shop.js:169 | splitting joined parts that lack the separator gives back the parts |

## Left out

- Rendering is not modelled: `displayShoes`, the cards, `updateActiveSortButton`, `updateSizeOptions` and `updateSelectedSizesDisplay`. The state keeps the displayed list instead.
- Language switching, the lightbox and its drag handling, the size panel's open and close handlers, and the duplicated panel handlers are not modelled. They are DOM-only behaviour.
- The assembly of the obfuscated feed URL (`urlParts.getFullUrl`) is not modelled. The URL is a constant the loader never inspects.
- `fetch` is a parameter: each attempt's outcome is either an HTTP failure or the fetched text.
- Papa Parse is a parameter as well: the rows it returns for a text, or None when it throws.
- Async scheduling and `console` logging are not modelled. Each attempt is treated as a step that runs to completion.
- Shop.Storefront.LoadDataWithRetry: it returns the number of attempts made. The page does not expose that count; it is there so the contract can relate the run to `Retry`.
- Numbers.ParseFloat: it reads decimal text with an optional exponent into exact rationals. It does not model IEEE-754 rounding or "Infinity".
- Pricing.AdjustPrice: the arithmetic is on exact rationals, so a price whose 4% fee rounds differently in binary floating point can differ in the last unit. `'€' + Math.round(x)` writes numbers of 1e21 and above in exponent notation; IntToString writes all their digits.
- Strings.Lower: it maps ASCII and Latin-1 capitals only. Other Unicode case mappings are not modelled.
- Strings.Trim: it covers the JavaScript white-space and line-terminator characters of the Basic Multilingual Plane.
- Aggregate.AddSize: it models the size entries as values. `existingSize.quantity += 1` mutates the entry in place, but nothing else holds a reference to it, so the observable result is the same.
- View.Arrange: `Array.prototype.sort` is modelled as a stable insertion sort over a sequence, not as an in-place sort. Stable sorting is specified, and the result is proved unique (ArrangeAscendingUnique, ArrangeDescendingUnique).
- The toggle's in-place `selectedSizes.push(size)` is modelled by reassigning the field.
