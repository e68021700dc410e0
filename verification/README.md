# Web crawler and flat-file search: a Dafny model

This project models the core of a small two-part search tool.

- **The crawler** (`crawl.py`) fetches a seed URL. It follows `http…` links up
  to a depth bound. For each visited page it appends at most one `Key: Value`
  block to an append-only text store: a page that loads but whose host does not
  resolve is followed without being saved.
- **The search window** (`searchgui.py`) parses that store back into one
  field map per block. It filters the maps with an AND-of-terms,
  OR-of-values, case-insensitive substring search. It can sort the matches by
  `Name` or `IP`. A blank phrase is refused with a prompt.

The record text the crawler writes is the only contract between the two
halves. The central property is therefore the round trip: parsing the text of
any saved records whose fields hold no line break gives back their four
fields, in order, both for the text as written and for the text as read back
in text mode (`Store.RoundTripStore`, `Store.RoundTripReadStore`,
`Crawler.CrawlStoreRoundTrip`).

Modules, one per component:

| file | module | models |
|---|---|---|
| `wrappers.dfy` | `Wrappers` | `Option`, for Python's `None` |
| `text.dfy` | `Text` | `in`, `str.split(sep)`, `str.split(sep, 1)`; `Join` is not called by the program and exists to state what a split cuts |
| `tokens.dfy` | `Tokens` | whitespace, `lower()`, `split()`, `strip()` |
| `order.dfy` | `CodePointOrder` | Python's `<=` on `str` (Dafny's `<=` on sequences is "is a prefix of") |
| `store.dfy` | `Store` | the record writer of `save_to_file` and `parse_database` |
| `search.dfy` | `Search` | `search_by_term`, `sort_results`, the guard in `perform_search` |
| `crawl.dfy` | `Crawler` | host extraction and `simple_web_crawler` over fetch/resolve oracles |

The crawler is a pure function. Its result is the sequence of calls
`simple_web_crawler` makes, in pre-order (`Visit(url, depth, saved)`). Each
call fetches once. Each call saves at most once, before it recurses. The
network is two function parameters:

- `fetch` gives a transport error, or a status code with the parsed document
  (title, meta description, every anchor's `href`);
- `resolve` gives the address of a host, or `None` when `gethostbyname` raises.

Both are fixed for a whole crawl: the same URL always fetches the same way and
the same host always resolves the same way.

Three behaviours of the code worth noting:

- An absent IP or description is not omitted from the record.
  `save_to_file` always writes all four lines and renders an absent value as
  the text `None` (crawl.py:24, 51, 54). So `IP: None` parses back as the value
  `"None"`, not as a missing key.
- The host is not simply the text after the first `//`. The code takes the
  last piece of `url.split('//')` (crawl.py:7). For `http://a.com//x` the text
  after the first `//` is `a.com//x`, which would give the host `a.com`, but
  the code looks up the host `x` (`Crawler.DoubleSlashPathHost`). The cuts are
  leftmost, so `file:///x` ends in `/x`, not `x`, and has the empty host
  (`Crawler.TripleSlashHost`).
- The store is read back in text mode (searchgui.py:5), whose universal
  newlines turn a carriage return into a line break. A field holding `'\r'`
  therefore does not survive the round trip, and the round-trip lemmas require
  fields free of both `'\n'` and `'\r'`.

## Model

| member | source | states |
|---|---|---|
| Text.FindFirst | searchgui.py:13 | gives the index of the first occurrence of the pattern exactly when the text contains it; no earlier position matches |
| Text.Split | searchgui.py:10 | `split(sep)` gives at least one piece, and joining the pieces with the separator gives back the input |
| Text.SplitCutsLeftmost | searchgui.py:10 | the cuts are leftmost and non-overlapping: more than one piece exactly when the separator occurs, the first piece ends at its first occurrence, and the other pieces are the split of the text after that occurrence |
| Text.SplitPiecesAvoidSep | searchgui.py:10 | no piece of a split contains the separator |
| Text.SplitFirstPiece | crawl.py:7 | the first piece is a prefix; it is the whole text when there is one piece, and the separator follows it otherwise |
| Text.SplitLastPiece | crawl.py:7 | the last piece is a suffix; it is the whole text when there is one piece, and the separator precedes it otherwise |
| Text.SplitWithoutSep | searchgui.py:13 | a text with no separator splits into itself alone |
| Tokens.WordsAreRuns | searchgui.py:19 | every token of `split()` is non-empty and holds no whitespace |
| Tokens.WordsEmptyIffAllSpace | searchgui.py:19 | a phrase has no tokens exactly when it is all whitespace |
| Tokens.WordsOfWord | searchgui.py:19 | a non-empty run without whitespace is a single token |
| Tokens.WordsSplitAtSpace | searchgui.py:19 | one whitespace character splits the tokens into those before it followed by those after it |
| Tokens.WordsTrailingSpace | searchgui.py:19 | trailing whitespace adds no token |
| Tokens.StripSpec | searchgui.py:88 | `strip()` gives a slice of the input with only whitespace outside it, and neither end of a non-empty result is whitespace |
| Tokens.TermsOfStripped | searchgui.py:88-94 | stripping the phrase before the search changes none of its lowercased tokens |
| Tokens.TermsEmptyIffBlank | searchgui.py:88-89 | a phrase yields no search tokens exactly when it strips to the empty text |
| Tokens.TermsOfJoinedPhrase | searchgui.py:19 | the tokens of `p + " " + q` are the tokens of `p` followed by those of `q` |
| CodePointOrder.LexLeIffFirstDifference | searchgui.py:24 | the sort's string order equals "a prefix of, or smaller code point at the first difference" |
| CodePointOrder.LexLeReflexive | searchgui.py:24 | every key is ordered before or equal to itself |
| CodePointOrder.LexLeTotal | searchgui.py:24 | any two keys are comparable |
| CodePointOrder.LexLeAntisymmetric | searchgui.py:24 | keys ordered both ways are equal |
| CodePointOrder.LexLeTransitive | searchgui.py:24 | the key order is transitive |
| CodePointOrder.TextualAddressOrder | searchgui.py:26 | addresses sort as text, so `10.0.0.1` comes before `2.0.0.1` and `1.2.3.4` before `5.6.7.8` |
| Store.Append | crawl.py:23-24 | saving a record only adds text after the existing store content |
| Store.AppendBuildsStore | crawl.py:21-27 | saving records one at a time builds the store text of all of them, in save order |
| Store.SerializedLines | crawl.py:24 | a saved record whose fields hold no line break is exactly the lines `URL`, `Name`, `IP`, `Description` in that order, then a blank line; an absent IP or description is written as `None` |
| Store.ParseLine | searchgui.py:13 | a line yields a pair exactly when it contains `": "`; the key is the text before the first `": "`, and the value is all the rest, which may contain `": "` itself |
| Store.ParseLinesKeys | searchgui.py:13 | a key is in a block's map exactly when some line of the block names it |
| Store.ParseLinesLastWins | searchgui.py:13 | a key's value comes from the last line that names it |
| Store.ParseEntries | searchgui.py:12-14 | one map per chunk, each the parse of its chunk, in order |
| Store.ParseDatabaseChunks | searchgui.py:10-14 | the parse has one map per chunk; there is at least one chunk, no chunk contains the separator, and the chunks joined by it give back the data |
| Store.ParseEmpty | searchgui.py:10-14 | the empty store, like the empty chunk after a final blank line, parses to one empty map |
| Store.ParseFieldLine | searchgui.py:13 | a written `Key: value` line with a colon-free key parses back to that key and value |
| Store.ParseFieldLines | searchgui.py:13 | the four written lines parse to exactly the four fields |
| Store.SplitBlock | searchgui.py:10 | a block of single-line fields followed by a blank line is exactly one chunk of the store |
| Store.RoundTripRecord | crawl.py:24 | a record with single-line fields parses back to its four fields, then the empty trailing map |
| Store.RoundTripStore | searchgui.py:8-16 | the saved blocks of n single-line records parse back to those n field maps, in order, then one empty map |
| Store.ReadBack | searchgui.py:5-6 | text read back in text mode holds no carriage return and is no longer than the file's text |
| Store.ReadBackKeeps | searchgui.py:5-6 | any character other than `'\r'` is read back as it is |
| Store.ReadBackLoneReturn | searchgui.py:5-6 | a `'\r'` not followed by `'\n'` reads back as `'\n'` |
| Store.ReadBackReturnNewline | searchgui.py:5-6 | `"\r\n"` reads back as a single `'\n'` |
| Store.ReadBackPrefix | searchgui.py:5-6 | text free of carriage returns in front of any text reads back unchanged, in front of the rest read back |
| Store.ReadBackWithoutReturn | searchgui.py:5-6 | text without a carriage return reads back unchanged |
| Store.ReturnReadsAsNewline | searchgui.py:5-6 | between any two texts free of carriage returns, `"\r\n"` reads back as one `'\n'` and both texts are kept; so does a lone `'\r'` when the text after it does not start with `'\n'` |
| Store.StoreTextWithoutReturn | crawl.py:24 | the text of records whose fields hold no line break holds no `'\r'` |
| Store.RoundTripReadStore | searchgui.py:4-16 | reading back and parsing the text of n single-line records gives their n field maps, in order, then one empty map |
| Store.ParseRecordStep | searchgui.py:10-14 | one saved record whose fields hold no line break, in front of any text, parses to that record's map in front of the maps the text parses to |
| Search.Filter | searchgui.py:20 | the result is a subsequence of the pages: every kept page matches all terms, and each matching page is kept as often as it occurs |
| Search.SubsequenceCounts | searchgui.py:20 | the search never duplicates or invents a page |
| Search.NoTermsKeepsAll | searchgui.py:20 | with zero terms every page is returned, empty maps included |
| Search.EmptyPageNeverMatches | searchgui.py:20 | with at least one term an empty map never matches |
| Search.MoreTermsRefine | searchgui.py:19-20 | searching with a superset of terms is the same as searching the result of the smaller set again |
| Search.MorePhraseWordsShrink | searchgui.py:18-20 | adding words to a phrase can only shrink the result, as a subsequence |
| Search.SortBy | searchgui.py:24 | sorting gives a permutation of the input that is ordered by the field's text |
| Search.SortByStable | searchgui.py:24 | pages with equal keys keep their input order |
| Search.StableSortUnique | searchgui.py:22-28 | any ordering that is sorted and keeps each key's input order is the one computed |
| Search.SortResultsSpec | searchgui.py:22-28 | for `Name` or `IP`: a permutation, sorted by that field (missing counts as `""`), stable; any other option returns the input unchanged |
| Search.PerformSearch | searchgui.py:87-96 | a phrase that strips to nothing gets the prompt `Enter search term.` and no search. Otherwise the shown pages are the search results for the phrase sorted by the chosen option, the same multiset of pages; each matches every token and none is an empty map |
| Crawler.AfterScheme | crawl.py:7 | the text after the `//` split is a suffix of the URL with no `//`; it is the whole URL if there is no `//`, and follows a `//` otherwise |
| Crawler.AfterSchemeSkipsFirstSeparator | crawl.py:7 | without `//` the URL is its own last piece; otherwise the last piece is that of the text after the first `//` |
| Crawler.AfterSchemeSlashFreeHead | crawl.py:7 | when the text before the first `//` has no `/`, the last piece is that of the text after that `//` |
| Crawler.DoubleSlashPathHost | crawl.py:7 | for `http://a.com//x` the last piece and the host are both `x`, not the `a.com` that follows the first `//` |
| Crawler.TripleSlashHost | crawl.py:7 | in `file:///x` the first two slashes are the separator, so the text after it is `/x` and the host is empty |
| Crawler.ExtractHost | crawl.py:7 | the host has no `/`; it is a prefix of the text after the scheme, ending at that text's end or at a `/` |
| Crawler.FollowedLinks | crawl.py:45-48 | every followed link starts with `http`, and each URL is followed exactly as often as a present `href` equal to it occurs, provided it starts with `http` |
| Crawler.FollowedLinksSingle | crawl.py:46-47 | one `href` is followed exactly when it is present and starts with `http` |
| Crawler.FollowedLinksConcat | crawl.py:45-48 | the links followed from two runs of anchors are those of the first run, then those of the second: document order |
| Crawler.Crawl | crawl.py:29-54 | the first call is the page itself with the given depth; every nested call has a depth from 1 up to one less than the given depth |
| Crawler.CrawlLinks | crawl.py:43-48 | every call below a page receives a depth between 1 and the reduced depth |
| Crawler.CrawlStore | crawl.py:22-24 | crawling only appends to the existing store |
| Crawler.ShallowCrawlFetchesOnce | crawl.py:43 | with depth at most 1 exactly one fetch happens and nothing is followed |
| Crawler.FailuresAreLeaves | crawl.py:49-54 | a transport error or a missing title saves one `Error` record; a status other than 200 saves one `Failed` record; neither recurses |
| Crawler.SuccessSavedIffResolved | crawl.py:37-48 | a page with status 200 and a title is saved, with its title, address and description, exactly when the address resolved to a non-empty text; its links are followed either way |
| Crawler.LinkLevelIsFollowedLinks | crawl.py:44-48 | the calls one level down are exactly the followed links, in document order, duplicates included |
| Crawler.ChildrenAreFollowedLinks | crawl.py:43-48 | below a successful page with depth above 1, the next level visits exactly its followed links |
| Crawler.EveryLinkOccurrenceSaves | crawl.py:45-48 | no deduplication: each occurrence of a followed link re-runs its visit, so with oracles fixed for the crawl a link whose visit saves a record saves that record once per occurrence |
| Crawler.CrawlSavesWellFormed | crawl.py:37-54 | every saved record, at any depth, carries its visit's URL. It is either an `Error`/`Failed` record with no address or description, or it has a resolved address |
| Crawler.CrawlStoreRoundTrip | crawl.py:24 | the store a crawl writes, as written and as read back in text mode, parses back to the saved records' fields in visit order, then one empty map |

## Left out

- The Tkinter window is presentation only. This covers widgets, layout, themes,
  the dark-mode toggle, `display_results` and opening a URL in the browser
  (searchgui.py:30-86, 98-116). Of `perform_search`, only the guard and the
  search-then-sort call are modelled; the prompt is returned as text rather
  than drawn.
- `requests.get`, BeautifulSoup and `get_page_description` (crawl.py:14-19,
  31, 33, 44) are foreign libraries. They become the `fetch` oracle, whose
  `Document` already holds the title, the meta description and the anchor
  `href`s.
- `gethostbyname` (crawl.py:8) is a network call. It becomes the `resolve`
  oracle. The model does not re-check that the oracle returns a dotted address.
- File I/O is left out: opening and closing files, and the swallowed write
  exception (searchgui.py:4-6, crawl.py:22-27). The store is a string that
  records are appended to; of `read_database` only the newline translation of
  text mode is modelled (`Store.ReadBack`). A failed write that loses a record is
  not modelled.
- `print` logging and the module-level entry points (crawl.py:56-58,
  searchgui.py:118-125) are side effects and configuration.
- Crawler.Crawl: the only exceptions modelled are a transport error and a
  missing title. Exceptions the library code might raise elsewhere, and
  Python's recursion limit, are not modelled. The `fetch` and `resolve`
  oracles are fixed for the whole crawl: the same URL always fetches the same
  way and the same host always resolves the same way. The program has no cache
  and calls `requests.get` (crawl.py:31) and `gethostbyname` (crawl.py:8)
  again on every visit, so a network that answers differently the second time
  is not modelled.
- Tokens.LowerChar: lowercases ASCII letters only. Python's full Unicode case
  mapping is not modelled.
- Tokens.IsSpace follows Python's `str.isspace()` character list, not the
  Unicode database it is generated from.
- CodePointOrder.LexLe compares Dafny characters, which are Unicode scalar
  values. Lone surrogates, which a Python `str` can hold, have no counterpart.
- Store.SerializedLines, Store.ParseRecordStep, Store.RoundTripRecord,
  Store.RoundTripStore, Store.RoundTripReadStore, Store.StoreTextWithoutReturn
  and Crawler.CrawlStoreRoundTrip assume no field holds a line break (`'\n'`,
  or `'\r'`, which reads back as one). The writer copies a page title
  unchanged (crawl.py:24), and a title such as `<title>\nX\n</title>` holds
  line breaks; such a record is more than four lines and splits its block
  differently. The model proves nothing about that case beyond
  `Store.ReturnReadsAsNewline`.
- Store.Page models a parsed block as a map, so it does not keep the
  key-insertion order of Python's `dict`. Only the left-out display code
  depends on that order.
