/** The value side of the quote collection: the record, the category filter behind
    "show a random quote", the list of distinct categories behind the filter buttons,
    and the two figures of the statistics panel. */
module Quotes {
  import opened JsText

  datatype Quote = Quote(text: string, category: string)

  /** The selector value that means "no filter"; also the first filter button. */
  const AllCategories: string := "All"

  /** A record as `addQuote` lets it in: both fields non-empty and already trimmed. */
  predicate WellFormed(q: Quote) {
    q.text != [] && IsTrimmed(q.text) && q.category != [] && IsTrimmed(q.category)
  }

  predicate Distinct<T(==)>(s: seq<T>) {
    forall i, j :: 0 <= i < j < |s| ==> s[i] != s[j]
  }

  function ToSet<T>(s: seq<T>): set<T> {
    set x | x in s
  }

  // ----- category filter ---------------------------------------------------

  /** `qs.filter(q => q.category === category)`: the quotes of that exact category. */
  function OnlyCategory(qs: seq<Quote>, category: string): (r: seq<Quote>)
    ensures |r| <= |qs|
    ensures forall q :: q in r <==> q in qs && q.category == category
  {
    if qs == [] then []
    else (if qs[0].category == category then [qs[0]] else []) + OnlyCategory(qs[1..], category)
  }

  /** The filter keeps relative order: filtering a concatenation filters each part in place. */
  lemma {:induction false} OnlyCategoryDistributes(a: seq<Quote>, b: seq<Quote>, category: string)
    ensures OnlyCategory(a + b, category) == OnlyCategory(a, category) + OnlyCategory(b, category)
  {
    if a == [] {
      assert a + b == b;
    } else {
      assert (a + b)[0] == a[0];
      assert (a + b)[1..] == a[1..] + b;
      OnlyCategoryDistributes(a[1..], b, category);
    }
  }

  /** Filtering an already filtered list changes nothing. */
  lemma {:induction false} OnlyCategoryIdempotent(qs: seq<Quote>, category: string)
    ensures OnlyCategory(OnlyCategory(qs, category), category) == OnlyCategory(qs, category)
  {
    if qs != [] {
      var head := if qs[0].category == category then [qs[0]] else [];
      OnlyCategoryDistributes(head, OnlyCategory(qs[1..], category), category);
      OnlyCategoryIdempotent(qs[1..], category);
      if head != [] {
        assert head[1..] == [];
      }
    }
  }

  /** The list `showRandomQuote` draws from: all quotes for the "All" selector, otherwise
      exactly the quotes whose category equals the selector (case-sensitive). */
  function Filtered(qs: seq<Quote>, selected: string): (r: seq<Quote>)
    ensures selected == AllCategories ==> r == qs
    ensures selected != AllCategories ==>
              forall q :: q in r <==> q in qs && q.category == selected
  {
    if selected == AllCategories then qs else OnlyCategory(qs, selected)
  }

  /** `Math.floor(draw * n)` with `draw` the value of `Math.random()`, in [0, 1):
      always a valid index of a list of `n` elements. */
  function PickIndex(draw: real, n: nat): (i: nat)
    requires 0.0 <= draw < 1.0
    requires n > 0
    ensures i < n
  {
    var x := draw * n as real;
    assert 0.0 <= x < n as real by {
      assert draw * n as real < 1.0 * n as real;
    }
    x.Floor
  }

  // ----- distinct categories ----------------------------------------------

  /** `quotes.map(q => q.category)`. */
  function Categories(qs: seq<Quote>): (r: seq<string>)
    ensures |r| == |qs| && forall i :: 0 <= i < |qs| ==> r[i] == qs[i].category
  {
    seq(|qs|, i requires 0 <= i < |qs| => qs[i].category)
  }

  /** The distinct categories as a set. */
  function CategorySet(qs: seq<Quote>): set<string> {
    set q | q in qs :: q.category
  }

  /** Iterating a JavaScript `Set` built from `s`, given the values `seen` already in it:
      each value of `s` not yet seen, once, at its first occurrence. With nothing seen,
      this is `[...new Set(s)]`. */
  function DedupeFrom(s: seq<string>, seen: set<string>): (r: seq<string>)
    ensures forall x :: x in r <==> x in s && x !in seen
    ensures Distinct(r)
    ensures |r| <= |s|
  {
    if s == [] then []
    else if s[0] in seen then DedupeFrom(s[1..], seen)
    else [s[0]] + DedupeFrom(s[1..], seen + {s[0]})
  }

  /** Position of the first occurrence of `x` in `s`. */
  function FirstIndex<T(==)>(s: seq<T>, x: T): (i: nat)
    requires x in s
    ensures i < |s| && s[i] == x && x !in s[..i]
  {
    if s[0] == x then 0
    else
      var i := 1 + FirstIndex(s[1..], x);
      assert s[..i] == [s[0]] + s[1..][..i - 1];
      i
  }

  /** Every value of `r` occurs in `s`, and `r` lists them in the order of their first
      occurrences in `s`. */
  predicate InFirstOccurrenceOrder<T(==)>(r: seq<T>, s: seq<T>) {
    && (forall i :: 0 <= i < |r| ==> r[i] in s)
    && (forall i, j :: 0 <= i < j < |r| && r[i] in s && r[j] in s ==>
          FirstIndex(s, r[i]) < FirstIndex(s, r[j]))
  }

  lemma FirstIndexPastHead<T>(s: seq<T>, x: T)
    requires x in s && x != s[0]
    ensures x in s[1..] && FirstIndex(s, x) == 1 + FirstIndex(s[1..], x)
  {
  }

  /** Putting a value in front of `s` that `r` does not mention keeps `r` in order. */
  lemma OrderPastHead<T>(r: seq<T>, s: seq<T>)
    requires s != [] && s[0] !in r
    requires InFirstOccurrenceOrder(r, s[1..])
    ensures InFirstOccurrenceOrder(r, s)
  {
    forall i | 0 <= i < |r| ensures r[i] in s {
      assert r[i] in s[1..];
    }
    forall i, j | 0 <= i < j < |r| && r[i] in s && r[j] in s
      ensures FirstIndex(s, r[i]) < FirstIndex(s, r[j])
    {
      assert r[i] in r && r[j] in r;
      FirstIndexPastHead(s, r[i]);
      FirstIndexPastHead(s, r[j]);
    }
  }

  /** The head of `s` may go in front of an ordered `r` that does not mention it. */
  lemma OrderWithHead<T>(r: seq<T>, s: seq<T>)
    requires s != [] && s[0] !in r
    requires InFirstOccurrenceOrder(r, s)
    ensures InFirstOccurrenceOrder([s[0]] + r, s)
  {
    var r' := [s[0]] + r;
    forall i, j | 0 <= i < j < |r'| && r'[i] in s && r'[j] in s
      ensures FirstIndex(s, r'[i]) < FirstIndex(s, r'[j])
    {
      assert r'[j] == r[j - 1] && r[j - 1] in r;
      if i > 0 {
        assert r'[i] == r[i - 1];
      }
    }
  }

  /** The values come out in the order of their first occurrences in `s`. */
  lemma {:induction false} DedupeFromFirstOccurrenceOrder(s: seq<string>, seen: set<string>)
    ensures InFirstOccurrenceOrder(DedupeFrom(s, seen), s)
  {
    if s != [] {
      if s[0] in seen {
        var rest := DedupeFrom(s[1..], seen);
        DedupeFromFirstOccurrenceOrder(s[1..], seen);
        OrderPastHead(rest, s);
      } else {
        var rest := DedupeFrom(s[1..], seen + {s[0]});
        DedupeFromFirstOccurrenceOrder(s[1..], seen + {s[0]});
        OrderPastHead(rest, s);
        OrderWithHead(rest, s);
      }
    }
  }

  /** Adding one value at the end adds it to the iteration order only if it is new. */
  lemma {:induction false} DedupeFromSnoc(s: seq<string>, x: string, seen: set<string>)
    ensures DedupeFrom(s + [x], seen)
         == DedupeFrom(s, seen) + (if x in s || x in seen then [] else [x])
  {
    if s == [] {
      assert s + [x] == [x];
      assert [x][1..] == [];
    } else {
      assert (s + [x])[0] == s[0];
      assert (s + [x])[1..] == s[1..] + [x];
      var seen' := if s[0] in seen then seen else seen + {s[0]};
      DedupeFromSnoc(s[1..], x, seen');
      assert x in s <==> x == s[0] || x in s[1..];
    }
  }

  /** `getUniqueCategories()`: "All" first, then every category once in first-occurrence
      order. The tail is duplicate-free and holds exactly the quotes' categories; "All"
      is not removed from it, so a quote whose category is "All" puts it in twice. */
  function UniqueCategories(qs: seq<Quote>): (r: seq<string>)
    ensures |r| >= 1 && r[0] == AllCategories
    ensures Distinct(r[1..])
    ensures forall c :: c in r[1..] <==> c in CategorySet(qs)
    ensures |r| <= |qs| + 1
  {
    var cats := Categories(qs);
    var r := [AllCategories] + DedupeFrom(cats, {});
    assert r[1..] == DedupeFrom(cats, {});
    forall c ensures c in cats <==> c in CategorySet(qs) {
      if c in cats {
        var i :| 0 <= i < |cats| && cats[i] == c;
        assert qs[i] in qs;
      }
      if c in CategorySet(qs) {
        var q :| q in qs && q.category == c;
        var i :| 0 <= i < |qs| && qs[i] == q;
        assert cats[i] == c;
      }
    }
    r
  }

  /** The categories after "All" follow the order in which each first appears in `quotes`. */
  lemma UniqueCategoriesFirstOccurrenceOrder(qs: seq<Quote>)
    ensures InFirstOccurrenceOrder(UniqueCategories(qs)[1..], Categories(qs))
  {
    assert UniqueCategories(qs)[1..] == DedupeFrom(Categories(qs), {});
    DedupeFromFirstOccurrenceOrder(Categories(qs), {});
  }

  /** Appending a quote whose category was already present leaves the list unchanged;
      one with a new category adds that category at the end. */
  lemma UniqueCategoriesAppend(qs: seq<Quote>, q: Quote)
    ensures UniqueCategories(qs + [q])
         == UniqueCategories(qs) + (if q.category in CategorySet(qs) then [] else [q.category])
  {
    var cats := Categories(qs);
    assert Categories(qs + [q]) == cats + [q.category];
    DedupeFromSnoc(cats, q.category, {});
    assert q.category in cats <==> q.category in UniqueCategories(qs)[1..];
  }

  /** So every filter button that existed before an append still exists after it. */
  lemma UniqueCategoriesGrow(qs: seq<Quote>, q: Quote, c: string)
    requires c in UniqueCategories(qs)
    ensures c in UniqueCategories(qs + [q])
  {
    UniqueCategoriesAppend(qs, q);
  }

  lemma {:induction false} DistinctOccursOnce<T>(s: seq<T>, x: T)
    requires Distinct(s) && x in s
    ensures multiset(s)[x] == 1
  {
    if s[0] == x {
      assert x !in s[1..];
    } else {
      DistinctOccursOnce(s[1..], x);
    }
    assert s == [s[0]] + s[1..];
  }

  /** The quirk of the "All" sentinel: when some quote's category is literally "All",
      the button list holds "All" exactly twice, once as the sentinel and once as that category. */
  lemma AllListedTwice(qs: seq<Quote>, q: Quote)
    requires q in qs && q.category == AllCategories
    ensures multiset(UniqueCategories(qs))[AllCategories] == 2
  {
    var r := UniqueCategories(qs);
    assert AllCategories in CategorySet(qs);
    DistinctOccursOnce(r[1..], AllCategories);
    assert r == [r[0]] + r[1..];
  }

  /** With a selector taken from the button list, the empty-message path is reached only
      when there are no quotes at all: every category button filters to at least one quote. */
  lemma FilteredEmptyOnlyWithoutQuotes(qs: seq<Quote>, selected: string)
    requires selected in UniqueCategories(qs)
    ensures Filtered(qs, selected) == [] <==> qs == []
  {
    if selected != AllCategories {
      var r := UniqueCategories(qs);
      var k :| 0 <= k < |r| && r[k] == selected;
      assert r[1..][k - 1] == selected;
      var q :| q in qs && q.category == selected;
      assert q in Filtered(qs, selected);
    }
  }

  // ----- statistics --------------------------------------------------------

  lemma {:induction false} DistinctCardinality<T>(s: seq<T>)
    requires Distinct(s)
    ensures |ToSet(s)| == |s|
  {
    if s != [] {
      DistinctCardinality(s[1..]);
      assert ToSet(s) == {s[0]} + ToSet(s[1..]);
      assert s[0] !in ToSet(s[1..]);
    }
  }

  datatype Stats = Stats(totalQuotes: nat, totalCategories: nat)

  /** `updateStats()`: the number of quotes, and the length of the button list minus one,
      which is the number of distinct categories. */
  function ComputeStats(qs: seq<Quote>): (s: Stats)
    ensures s.totalQuotes == |qs|
    ensures s.totalCategories == |CategorySet(qs)|
  {
    var u := UniqueCategories(qs);
    DistinctCardinality(u[1..]);
    assert ToSet(u[1..]) == CategorySet(qs);
    Stats(|qs|, |u| - 1)
  }

  /** What the statistics panel shows after `addQuote` appends a quote: one more quote,
      and one more category exactly when the new quote's category was not yet present. */
  lemma StatsAfterAppend(qs: seq<Quote>, q: Quote)
    ensures ComputeStats(qs + [q]).totalQuotes == ComputeStats(qs).totalQuotes + 1
    ensures ComputeStats(qs + [q]).totalCategories
         == ComputeStats(qs).totalCategories + (if q.category in CategorySet(qs) then 0 else 1)
  {
    UniqueCategoriesAppend(qs, q);
  }
}
