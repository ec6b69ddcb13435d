/** The page's mutable state: the global `quotes` list and the global `selectedCategory`
    selector, with the operations that read or change them. */
module QuoteApp {
  import opened JsText
  import opened Quotes

  /** What `showRandomQuote` puts on the page: the "no quotes in this category" message,
      or one quote with its category badge. */
  datatype Display = EmptyMessage | Card(quote: Quote)

  /** What `addQuote` reports: the rejection alert, or the success alert with the new total. */
  datatype AddOutcome = Rejected | Added(totalQuotes: nat)

  class QuoteBook {
    var quotes: seq<Quote>
    var selectedCategory: string

    /** Every stored quote is as `addQuote` admits it, and the selector is one of the
        filter buttons on the page, since a button's click handler is the only writer. */
    ghost predicate Valid()
      reads this
    {
      && (forall q :: q in quotes ==> WellFormed(q))
      && selectedCategory in UniqueCategories(quotes)
    }

    /** Page load: the seed list, no filter. */
    constructor (seed: seq<Quote>)
      requires forall q :: q in seed ==> WellFormed(q)
      ensures Valid()
      ensures quotes == seed && selectedCategory == AllCategories
    {
      quotes := seed;
      selectedCategory := AllCategories;
    }

    /** `showRandomQuote()`, with `draw` the value `Math.random()` returned. The empty
        message appears exactly when the filtered list is empty; otherwise the quote shown
        belongs to the filtered list, so it has the selected category unless that is "All".
        While the invariant holds, the empty message appears only when there are no quotes. */
    method ShowRandomQuote(draw: real) returns (d: Display)
      requires 0.0 <= draw < 1.0
      ensures d.EmptyMessage? <==> Filtered(quotes, selectedCategory) == []
      ensures d.Card? ==> d.quote in Filtered(quotes, selectedCategory)
      ensures d.Card? ==> d.quote in quotes
      ensures d.Card? && selectedCategory != AllCategories ==> d.quote.category == selectedCategory
      ensures Valid() ==> (d.EmptyMessage? <==> quotes == [])
    {
      if Valid() {
        FilteredEmptyOnlyWithoutQuotes(quotes, selectedCategory);
      }
      var filtered := Filtered(quotes, selectedCategory);
      if |filtered| == 0 {
        d := EmptyMessage;
      } else {
        var i := PickIndex(draw, |filtered|);
        d := Card(filtered[i]);
      }
    }

    /** `addQuote()`, with the two raw input values. Input that trims to empty is rejected
        and nothing changes; otherwise exactly one record of the trimmed values is appended. */
    method AddQuote(rawText: string, rawCategory: string) returns (outcome: AddOutcome)
      requires Valid()
      modifies this`quotes
      ensures Valid()
      ensures outcome.Rejected? <==> AllWhitespace(rawText) || AllWhitespace(rawCategory)
      ensures outcome.Rejected? ==> quotes == old(quotes)
      ensures outcome.Added? ==>
                && quotes == old(quotes) + [Quote(Trim(rawText), Trim(rawCategory))]
                && outcome.totalQuotes == |quotes| == |old(quotes)| + 1
    {
      var text := Trim(rawText);
      var category := Trim(rawCategory);
      if text == [] || category == [] {
        outcome := Rejected;
      } else {
        var q := Quote(text, category);
        assert WellFormed(q);
        UniqueCategoriesGrow(quotes, q, selectedCategory);
        ghost var before := quotes;
        quotes := quotes + [q];
        assert forall x :: x in quotes ==> x in before || x == q;
        outcome := Added(|quotes|);
      }
    }

    /** A click on a category button: the selector becomes that button's category and the
        quote list is untouched. Buttons exist only for the listed categories. */
    method SelectCategory(category: string)
      requires Valid()
      requires category in UniqueCategories(quotes)
      modifies this`selectedCategory
      ensures Valid()
      ensures selectedCategory == category && quotes == old(quotes)
    {
      selectedCategory := category;
    }
  }
}
