# Quote collection kernel of the "dom-manipulation" quote generator

The quote generator is a single browser script. It keeps a global, ordered list of
quotes. Each quote is a `{text, category}` record. It also keeps a global category
selector that starts as `"All"`. The page shows a random quote from the selected
category, lets the user add a quote from two input fields, shows one filter button per
distinct category (after an `"All"` button), and shows two figures: the number of quotes
and the number of categories. This project models that kernel and proves its properties:

- `js_text.dfy` (module `JsText`): JavaScript's `String.prototype.trim`. It removes the
  ECMAScript white-space and line-terminator code points at both ends.
- `quotes.dfy` (module `Quotes`): the pure part. It has the quote record, the category
  filter, the index drawn from `Math.random()`, the order of a JavaScript `Set`, the
  button list from `getUniqueCategories`, and the figures from `updateStats`.
- `quote_book.dfy` (module `QuoteApp`): the mutable part. Class `QuoteBook` holds the
  `quotes` list (a `seq` field that `AddQuote` reassigns) and `selectedCategory`. Its
  methods are `showRandomQuote`, `addQuote` and the filter-button click handler.

The class invariant `Valid()` has two parts. Every stored quote is non-empty and trimmed
in both fields. The selector is one of the listed filter buttons. Both methods that
change state preserve it. From it, `FilteredEmptyOnlyWithoutQuotes` shows, and
`ShowRandomQuote` states, that the "no quotes in this category" message can appear only
when the list itself is empty.

Categories are compared case-sensitively, as given, and never lower-cased.

## Model

| member | source | states |
|---|---|---|
| JsText.SkipWhitespace | dom-manipulation/script.js:107-110 | the forward scan of `trim()` stops at the first character that is not white space, or at the end, and passes only white space |
| JsText.SkipWhitespaceBack | dom-manipulation/script.js:107-110 | the backward scan of `trim()` stops just past the last character that is not white space, and passes only white space |
| JsText.Trim | dom-manipulation/script.js:107-110 | `trim()` returns one contiguous stretch of the input, drops only white space on either side and leaves none at either end; the result is empty exactly when the input is all white space |
| JsText.TrimOfTrimmed | dom-manipulation/script.js:107-110 | a string with no white space at either end is unchanged by `trim()` |
| JsText.TrimIdempotent | dom-manipulation/script.js:107-110 | trimming twice equals trimming once |
| Quotes.OnlyCategory | dom-manipulation/script.js:61-63 | a quote is in the filtered list iff it is in the list and its category equals the selector exactly; the result is no longer than the input |
| Quotes.OnlyCategoryDistributes | dom-manipulation/script.js:61-63 | filtering keeps relative order: filtering `a + b` equals filtering `a` followed by filtering `b` |
| Quotes.OnlyCategoryIdempotent | dom-manipulation/script.js:61-63 | filtering an already filtered list by the same category changes nothing |
| Quotes.Filtered | dom-manipulation/script.js:59-64 | the selector `"All"` yields the whole list; any other selector yields exactly the quotes of that category |
| Quotes.PickIndex | dom-manipulation/script.js:76-77 | `Math.floor(Math.random() * n)` for a non-empty list is an index in `[0, n)` |
| Quotes.Categories | dom-manipulation/script.js:148 | `quotes.map(q => q.category)`: same length, element `i` is quote `i`'s category |
| Quotes.DedupeFrom | dom-manipulation/script.js:149 | iterating a `Set` built from the list yields each value not already present exactly once, and nothing else |
| Quotes.FirstIndex | dom-manipulation/script.js:149 | the position where a value first occurs in a list |
| Quotes.DedupeFromFirstOccurrenceOrder | dom-manipulation/script.js:149 | the `Set` yields its values in the order of their first occurrences in the list |
| Quotes.DedupeFromSnoc | dom-manipulation/script.js:149 | appending a value to the list appends it to the `Set` order iff it is new, else leaves the order unchanged |
| Quotes.UniqueCategories | dom-manipulation/script.js:147-150 | first element is `"All"`; the rest are pairwise distinct and are exactly the categories of the quotes |
| Quotes.UniqueCategoriesFirstOccurrenceOrder | dom-manipulation/script.js:147-150 | the categories after `"All"` follow the order of their first occurrences in `quotes` |
| Quotes.UniqueCategoriesAppend | dom-manipulation/script.js:147-150 | appending a quote with a category already present leaves the list unchanged; a new category is added at the end |
| Quotes.UniqueCategoriesGrow | dom-manipulation/script.js:147-150 | every filter button that exists before an append still exists after it |
| Quotes.AllListedTwice | dom-manipulation/script.js:149 | if some quote's category is literally `"All"`, the button list contains `"All"` exactly twice |
| Quotes.FilteredEmptyOnlyWithoutQuotes | dom-manipulation/script.js:59-73 | for a selector taken from the button list, the filtered list is empty iff there are no quotes |
| Quotes.ComputeStats | dom-manipulation/script.js:195-203 | total quotes is the length of `quotes`; total categories (button count minus one) is the number of distinct categories |
| Quotes.StatsAfterAppend | dom-manipulation/script.js:195-203 | after an append: one more quote, and one more category iff the new category was not yet present |
| QuoteApp.QuoteBook.constructor | dom-manipulation/script.js:2-43 | the collection starts with the seed list and the selector `"All"` |
| QuoteApp.QuoteBook.ShowRandomQuote | dom-manipulation/script.js:59-77 | the empty message appears iff the filtered list is empty; otherwise the quote shown is in the filtered list, so it has the selected category unless that is `"All"`; while the invariant holds, the empty message appears iff there are no quotes |
| QuoteApp.QuoteBook.AddQuote | dom-manipulation/script.js:105-138 | rejected iff either raw input is all white space, with the list unchanged; otherwise exactly `{trim(text), trim(category)}` is appended, the rest stays in place, and the reported total is the new length; the invariant is kept |
| QuoteApp.QuoteBook.SelectCategory | dom-manipulation/script.js:174-176 | a button click sets the selector to that button's category and leaves `quotes` unchanged; the invariant is kept |

## Left out

- Rendering and the DOM are not modelled: clearing `innerHTML`, creating the quote card and the filter buttons, toggling the `active` class, the fade-in `setTimeout`, clearing the input fields, and `createAddQuoteForm`. The model keeps what `showRandomQuote` would show (`Display`) and what the buttons stand for (`UniqueCategories`).
- Event wiring, `initializeApp` and the `alert` messages are left out. The success alert's total is kept as `AddOutcome.Added.totalQuotes`. The redraws that `addQuote` triggers (`updateStats`, `createCategoryFilter`, `showRandomQuote`) are the pure functions above applied to the new list.
- Reading the inputs from the DOM is not modelled. The raw strings are parameters of `AddQuote`.
- QuoteApp.QuoteBook.ShowRandomQuote: `Math.random()` is a parameter `draw` in `[0, 1)`, and `draw * n` is computed over exact reals. It does not model floating-point rounding.
- Strings are sequences of Unicode scalar values, not UTF-16 code units. The white-space set is the fixed ECMAScript list, taken as the model's `IsWhitespace`.
- The literal seed quotes are not modelled. The constructor takes any list of well-formed quotes as the seed.
- The click handler (`SelectCategory`) requires a category from the current button list. The script creates click handlers only for those categories and rebuilds the buttons after every add. The handler's redraw after setting the selector (its `showRandomQuote()` call) is `ShowRandomQuote` run with the new selector.
