/**
 The query side: the AND-of-terms, OR-of-values substring filter, the stable
 sort by one field, and the guard that refuses an empty search phrase.
 */
module Search {
  import opened Text
  import opened Tokens
  import opened CodePointOrder
  import opened Store

  // ---------------------------------------------------------------------------
  // search_by_term

  /** Some field value, lowercased, contains `term`. Keys are never searched. */
  predicate TermInPage(page: Page, term: string) {
    exists k :: k in page && Contains(Lower(page[k]), term)
  }

  /** Every term occurs in some field value of the page. */
  predicate Matches(page: Page, terms: seq<string>) {
    forall t :: t in terms ==> TermInPage(page, t)
  }

  /** `b` contains the elements of `a` in the same relative order. */
  ghost predicate IsSubsequence<T>(a: seq<T>, b: seq<T>)
    decreases |b|
  {
    || |a| == 0
    || (|b| > 0 && ((a[0] == b[0] && IsSubsequence(a[1..], b[1..])) || IsSubsequence(a, b[1..])))
  }

  /** The pages that match every term, in store order. */
  function Filter(pages: seq<Page>, terms: seq<string>): (r: seq<Page>)
    ensures IsSubsequence(r, pages)
    ensures forall p :: p in r ==> Matches(p, terms)
    ensures forall p :: multiset(r)[p] == (if Matches(p, terms) then multiset(pages)[p] else 0)
  {
    if |pages| == 0 then []
    else
      var rest := Filter(pages[1..], terms);
      assert pages == [pages[0]] + pages[1..];
      if Matches(pages[0], terms) then [pages[0]] + rest else rest
  }

  /** `search_by_term(pages, search_term)`. */
  function SearchByTerm(pages: seq<Page>, phrase: string): seq<Page> {
    Filter(pages, Terms(phrase))
  }

  /** A subsequence never duplicates or invents an element. */
  lemma {:induction false} SubsequenceCounts<T>(a: seq<T>, b: seq<T>)
    requires IsSubsequence(a, b)
    ensures multiset(a) <= multiset(b)
    decreases |b|
  {
    if |a| > 0 {
      assert b == [b[0]] + b[1..];
      if a[0] == b[0] && IsSubsequence(a[1..], b[1..]) {
        SubsequenceCounts(a[1..], b[1..]);
        assert a == [a[0]] + a[1..];
      } else {
        SubsequenceCounts(a, b[1..]);
      }
    }
  }

  /** With no terms every page is returned, empty maps included. */
  lemma {:induction false} NoTermsKeepsAll(pages: seq<Page>)
    ensures Filter(pages, []) == pages
    decreases |pages|
  {
    if |pages| > 0 {
      NoTermsKeepsAll(pages[1..]);
    }
  }

  /** With at least one term an empty map never matches. */
  lemma EmptyPageNeverMatches(terms: seq<string>)
    requires |terms| > 0
    ensures !Matches(map[], terms)
  {
    assert terms[0] in terms;
  }

  /** Filtering by more terms is filtering the result of fewer terms. */
  lemma {:induction false} MoreTermsRefine(pages: seq<Page>, fewer: seq<string>, more: seq<string>)
    requires forall t :: t in fewer ==> t in more
    ensures Filter(pages, more) == Filter(Filter(pages, fewer), more)
    decreases |pages|
  {
    if |pages| > 0 {
      MoreTermsRefine(pages[1..], fewer, more);
      var rest := Filter(pages[1..], fewer);
      if Matches(pages[0], fewer) {
        assert ([pages[0]] + rest)[1..] == rest;
      }
    }
  }

  /**
   Adding words to a search phrase can only shrink the result: the results for
   the longer phrase are a subsequence of those for the shorter one.
   */
  lemma MorePhraseWordsShrink(pages: seq<Page>, p: string, q: string)
    ensures SearchByTerm(pages, p + " " + q) == Filter(SearchByTerm(pages, p), Terms(p + " " + q))
    ensures IsSubsequence(SearchByTerm(pages, p + " " + q), SearchByTerm(pages, p))
  {
    TermsOfJoinedPhrase(p, q);
    MoreTermsRefine(pages, Terms(p), Terms(p + " " + q));
  }

  // ---------------------------------------------------------------------------
  // sort_results

  /** `page.get(field, '')`. */
  function SortKey(page: Page, field: string): string {
    if field in page then page[field] else ""
  }

  ghost predicate SortedBy(s: seq<Page>, field: string) {
    forall i, j :: 0 <= i < j < |s| ==> LexLe(SortKey(s[i], field), SortKey(s[j], field))
  }

  /** The elements of `s` whose key is `k`, in order. */
  function WithKey(s: seq<Page>, field: string, k: string): seq<Page>
  {
    if |s| == 0 then []
    else (if SortKey(s[0], field) == k then [s[0]] else []) + WithKey(s[1..], field, k)
  }

  /** A page no larger than every element of a sorted sequence can go in front of it. */
  lemma ConsSorted(x: Page, s: seq<Page>, field: string)
    requires SortedBy(s, field)
    requires forall y :: y in s ==> LexLe(SortKey(x, field), SortKey(y, field))
    ensures SortedBy([x] + s, field)
  {
    var r := [x] + s;
    forall i, j | 0 <= i < j < |r| ensures LexLe(SortKey(r[i], field), SortKey(r[j], field)) {
      if i == 0 {
        assert r[j] == s[j - 1];
      } else {
        assert r[i] == s[i - 1] && r[j] == s[j - 1];
      }
    }
  }

  /** The first element of a sorted sequence is no larger than any element. */
  lemma SortedHeadLeast(s: seq<Page>, field: string)
    requires SortedBy(s, field) && |s| > 0
    ensures forall y :: y in s ==> LexLe(SortKey(s[0], field), SortKey(y, field))
  {
    forall y | y in s ensures LexLe(SortKey(s[0], field), SortKey(y, field)) {
      var j :| 0 <= j < |s| && s[j] == y;
      if j == 0 { LexLeReflexive(SortKey(y, field)); }
    }
  }

  lemma TailSorted(s: seq<Page>, field: string)
    requires SortedBy(s, field) && |s| > 0
    ensures SortedBy(s[1..], field)
  {
    forall i, j | 0 <= i < j < |s| - 1 ensures LexLe(SortKey(s[1..][i], field), SortKey(s[1..][j], field)) {
      assert s[1..][i] == s[i + 1] && s[1..][j] == s[j + 1];
    }
  }

  /** Insert `x` before the first element whose key is not smaller than its own. */
  function Insert(x: Page, s: seq<Page>, field: string): seq<Page>
    decreases |s|
  {
    if |s| == 0 || LexLe(SortKey(x, field), SortKey(s[0], field)) then [x] + s
    else [s[0]] + Insert(x, s[1..], field)
  }

  lemma {:induction false} InsertPermutes(x: Page, s: seq<Page>, field: string)
    ensures multiset(Insert(x, s, field)) == multiset{x} + multiset(s)
    decreases |s|
  {
    if |s| > 0 && !LexLe(SortKey(x, field), SortKey(s[0], field)) {
      InsertPermutes(x, s[1..], field);
      assert s == [s[0]] + s[1..];
    }
  }

  lemma {:induction false} InsertSorted(x: Page, s: seq<Page>, field: string)
    requires SortedBy(s, field)
    ensures SortedBy(Insert(x, s, field), field)
    decreases |s|
  {
    if |s| == 0 || LexLe(SortKey(x, field), SortKey(s[0], field)) {
      InsertFront(x, s, field);
    } else {
      TailSorted(s, field);
      InsertSorted(x, s[1..], field);
      InsertPermutes(x, s[1..], field);
      InsertBehind(x, s, Insert(x, s[1..], field), field);
    }
  }

  lemma InsertFront(x: Page, s: seq<Page>, field: string)
    requires |s| == 0 || LexLe(SortKey(x, field), SortKey(s[0], field))
    ensures SortedBy(s, field) ==> SortedBy([x] + s, field)
  {
    if SortedBy(s, field) {
      if |s| > 0 {
        SortedHeadLeast(s, field);
        forall y | y in s ensures LexLe(SortKey(x, field), SortKey(y, field)) {
          LexLeTransitive(SortKey(x, field), SortKey(s[0], field), SortKey(y, field));
        }
      }
      ConsSorted(x, s, field);
    }
  }

  lemma InsertBehind(x: Page, s: seq<Page>, rest: seq<Page>, field: string)
    requires |s| > 0 && !LexLe(SortKey(x, field), SortKey(s[0], field))
    requires multiset(rest) == multiset{x} + multiset(s[1..])
    requires SortedBy(s[1..], field) ==> SortedBy(rest, field)
    ensures SortedBy(s, field) ==> SortedBy([s[0]] + rest, field)
  {
    if SortedBy(s, field) {
      TailSorted(s, field);
      SortedHeadLeast(s, field);
      LexLeTotal(SortKey(x, field), SortKey(s[0], field));
      forall y | y in rest ensures LexLe(SortKey(s[0], field), SortKey(y, field)) {
        assert y in multiset(rest);
        assert y == x || y in multiset(s[1..]);
        if y != x {
          assert y in s[1..];
          assert y in s;
        }
      }
      ConsSorted(s[0], rest, field);
    }
  }

  /**
   Python's `sorted(s, key=lambda x: x.get(field, ''))`, computed by stable
   insertion; `StableSortUnique` shows that every stable sort by this key,
   Timsort included, gives this result.
   */
  function SortBy(s: seq<Page>, field: string): (r: seq<Page>)
    ensures multiset(r) == multiset(s)
    ensures SortedBy(r, field)
  {
    if |s| == 0 then []
    else
      var rest := SortBy(s[1..], field);
      InsertPermutes(s[0], rest, field);
      InsertSorted(s[0], rest, field);
      assert s == [s[0]] + s[1..];
      Insert(s[0], rest, field)
  }

  /** `sort_results(results, sort_option)`. */
  function SortResults(results: seq<Page>, option: string): seq<Page> {
    if option == "Name" then SortBy(results, "Name")
    else if option == "IP" then SortBy(results, "IP")
    else results
  }

  /** Insertion keeps the relative order of the elements of each key, with `x` first among its own. */
  lemma {:induction false} InsertWithKey(x: Page, s: seq<Page>, field: string, k: string)
    ensures WithKey(Insert(x, s, field), field, k) == WithKey([x] + s, field, k)
    decreases |s|
  {
    var kx := SortKey(x, field);
    if |s| > 0 && !LexLe(kx, SortKey(s[0], field)) {
      var rest := Insert(x, s[1..], field);
      assert Insert(x, s, field) == [s[0]] + rest;
      InsertWithKey(x, s[1..], field, k);
      LexLeReflexive(kx);
      var hx := if kx == k then [x] else [];
      var h0 := if SortKey(s[0], field) == k then [s[0]] else [];
      assert hx == [] || h0 == [];
      WithKeyCons(s[0], rest, field, k);
      WithKeyCons(x, s[1..], field, k);
      WithKeyCons(x, s, field, k);
      WithKeyCons(s[0], s[1..], field, k);
      assert s == [s[0]] + s[1..];
      assert h0 + (hx + WithKey(s[1..], field, k)) == hx + (h0 + WithKey(s[1..], field, k));
    }
  }

  lemma WithKeyCons(y: Page, t: seq<Page>, field: string, k: string)
    ensures WithKey([y] + t, field, k) == (if SortKey(y, field) == k then [y] else []) + WithKey(t, field, k)
  {
    assert ([y] + t)[1..] == t;
  }

  /** Sorting is stable: elements with equal keys keep their input order. */
  lemma {:induction false} SortByStable(s: seq<Page>, field: string, k: string)
    ensures WithKey(SortBy(s, field), field, k) == WithKey(s, field, k)
    decreases |s|
  {
    if |s| > 0 {
      SortByStable(s[1..], field, k);
      InsertWithKey(s[0], SortBy(s[1..], field), field, k);
      assert ([s[0]] + SortBy(s[1..], field))[1..] == SortBy(s[1..], field);
    }
  }

  lemma {:induction false} WithKeyMembers(s: seq<Page>, field: string, k: string)
    ensures forall x :: x in WithKey(s, field, k) ==> x in s && SortKey(x, field) == k
    decreases |s|
  {
    if |s| > 0 {
      WithKeyMembers(s[1..], field, k);
    }
  }

  /** A non-empty sequence has at least its head among the elements with the head's key. */
  lemma WithKeyOfHead(s: seq<Page>, field: string)
    ensures |s| > 0 ==> WithKey(s, field, SortKey(s[0], field)) != []
    ensures |s| == 0 ==> forall k :: WithKey(s, field, k) == []
  {
  }

  /**
   A stable sort is determined by its two defining properties: any ordering of
   the input that is sorted by the key and keeps each key's elements in input
   order is the one `SortBy` computes.
   */
  lemma StableSortUnique(s: seq<Page>, r: seq<Page>, field: string)
    requires SortedBy(r, field)
    requires forall k :: WithKey(r, field, k) == WithKey(s, field, k)
    ensures r == SortBy(s, field)
  {
    forall k ensures WithKey(r, field, k) == WithKey(SortBy(s, field), field, k) {
      SortByStable(s, field, k);
    }
    SortedSameGroupsEqual(r, SortBy(s, field), field);
  }

  lemma {:induction false} SortedSameGroupsEqual(a: seq<Page>, b: seq<Page>, field: string)
    requires SortedBy(a, field) && SortedBy(b, field)
    requires forall k :: WithKey(a, field, k) == WithKey(b, field, k)
    ensures a == b
    decreases |a|
  {
    if |a| == 0 || |b| == 0 {
      WithKeyOfHead(a, field);
      WithKeyOfHead(b, field);
    } else {
      var ka, kb := SortKey(a[0], field), SortKey(b[0], field);
      WithKeyMembers(b, field, ka);
      assert WithKey(b, field, ka)[0] in WithKey(b, field, ka);
      SortedHeadLeast(b, field);
      assert LexLe(kb, ka);
      WithKeyMembers(a, field, kb);
      assert WithKey(a, field, kb)[0] in WithKey(a, field, kb);
      SortedHeadLeast(a, field);
      assert LexLe(ka, kb);
      LexLeAntisymmetric(ka, kb);
      assert a[0] == WithKey(a, field, ka)[0] == WithKey(b, field, ka)[0] == b[0];
      forall k ensures WithKey(a[1..], field, k) == WithKey(b[1..], field, k) {
        var head := if ka == k then [a[0]] else [];
        assert WithKey(a, field, k) == head + WithKey(a[1..], field, k);
        assert WithKey(b, field, k) == head + WithKey(b[1..], field, k);
        assert WithKey(a[1..], field, k) == WithKey(a, field, k)[|head|..];
      }
      TailSorted(a, field);
      TailSorted(b, field);
      SortedSameGroupsEqual(a[1..], b[1..], field);
      assert a == [a[0]] + a[1..];
      assert b == [b[0]] + b[1..];
    }
  }

  /**
   `sort_results` on `Name` or `IP` returns a permutation ordered by that field's
   text (a missing field counting as the empty text) in which equal keys keep
   their input order; any other option returns the input unchanged.
   */
  lemma SortResultsSpec(results: seq<Page>, option: string)
    ensures option == "Name" || option == "IP" ==>
      && multiset(SortResults(results, option)) == multiset(results)
      && SortedBy(SortResults(results, option), option)
      && forall k :: WithKey(SortResults(results, option), option, k) == WithKey(results, option, k)
    ensures option != "Name" && option != "IP" ==> SortResults(results, option) == results
  {
    if option == "Name" || option == "IP" {
      forall k ensures WithKey(SortResults(results, option), option, k) == WithKey(results, option, k) {
        SortByStable(results, option, k);
      }
    }
  }

  // ---------------------------------------------------------------------------
  // perform_search

  /** What the result pane shows after a search. */
  datatype Outcome = Prompt(message: string) | Shown(results: seq<Page>)

  /** The empty-phrase guard of `perform_search`, then search and sort. */
  function PerformSearch(pages: seq<Page>, entry: string, option: string): (o: Outcome)
    ensures o.Prompt? <==> Terms(entry) == []
    ensures o.Prompt? ==> o.message == "Enter search term.\n"
    ensures o.Shown? ==> o.results == SortResults(SearchByTerm(pages, entry), option)
    ensures o.Shown? ==> multiset(o.results) == multiset(SearchByTerm(pages, entry))
    ensures o.Shown? ==> forall p :: p in o.results ==> p != map[] && Matches(p, Terms(entry))
  {
    var term := Strip(entry);
    TermsEmptyIffBlank(entry);
    TermsOfStripped(entry);
    if term == [] then Prompt("Enter search term.\n")
    else
      var found := SearchByTerm(pages, term);
      assert found == SearchByTerm(pages, entry);
      var shown := SortResults(found, option);
      SortResultsSpec(found, option);
      EmptyPageNeverMatches(Terms(entry));
      assert forall p :: p in shown ==> p in multiset(found);
      Shown(shown)
  }
}
