/**
 The crawler's decision logic. The HTTP client, the HTML parser and DNS are
 oracles: `fetch` maps a URL to what `requests.get` plus BeautifulSoup would
 report, and `resolve` maps a host name to what `gethostbyname` returns
 (`None` when it raises).
 */
module Crawler {
  import opened Wrappers
  import opened Text
  import opened Store

  // ---------------------------------------------------------------------------
  // get_ip_address: host extraction

  /** `url.split('//')[-1]`: the text after the last separator the split finds. */
  function AfterScheme(url: string): (tail: string)
    ensures |tail| <= |url| && url[|url| - |tail|..] == tail
    ensures !Contains(tail, "//")
    ensures !Contains(url, "//") ==> tail == url
    ensures Contains(url, "//") ==> |tail| + 2 <= |url| && "//" <= url[|url| - |tail| - 2..]
  {
    var parts := Split(url, "//");
    SplitPiecesAvoidSep(url, "//");
    SplitLastPiece(url, "//");
    parts[|parts| - 1]
  }

  /**
   The pieces are cut leftmost first: skipping the first `//` and everything
   before it leaves the same last piece, and a URL without `//` is its own last piece.
   */
  lemma AfterSchemeSkipsFirstSeparator(url: string)
    ensures !Contains(url, "//") ==> AfterScheme(url) == url
    ensures Contains(url, "//") ==> FindFirst(url, "//").value + 2 <= |url|
    ensures Contains(url, "//") ==> AfterScheme(url) == AfterScheme(url[FindFirst(url, "//").value + 2..])
  {
    var parts := Split(url, "//");
    SplitCutsLeftmost(url, "//");
    if |parts| > 1 {
      var rest := Split(url[|parts[0]| + 2..], "//");
      assert rest == parts[1..];
      LastOfTail(parts);
    }
  }

  /** A first `//` after a slash-free head is the first separator, so only what follows it decides the last piece. */
  lemma AfterSchemeSlashFreeHead(p: string, q: string)
    requires '/' !in p
    ensures AfterScheme(p + "//" + q) == AfterScheme(q)
  {
    var s := p + "//" + q;
    assert "//" <= s[|p|..] by { assert s[|p|..] == "//" + q; }
    var m := FindFirst(s, "//").value;
    assert forall j :: 0 <= j < |p| ==> s[j] == p[j] && s[j] != '/';
    assert s[m] == '/' by { assert s[m..][0] == s[m]; }
    assert m == |p|;
    AfterSchemeSkipsFirstSeparator(s);
    assert s[|p| + 2..] == q;
  }

  /** A text without the character `c` does not contain the one-character text `[c]`. */
  lemma WithoutCharNoMatch(s: string, c: char)
    requires c !in s
    ensures !Contains(s, [c])
  {
    forall j | 0 <= j <= |s| ensures !([c] <= s[j..]) {
      if j < |s| { assert s[j..][0] == s[j]; }
    }
  }

  /**
   A second `//` in the path moves the host: `url.split('//')[-1]` of
   `http://a.com//x` is `x`, not the `a.com//x` that follows the first `//`.
   */
  lemma DoubleSlashPathHost()
    ensures AfterScheme("http://a.com//x") == "x"
    ensures ExtractHost("http://a.com//x") == "x"
  {
    SchemeSeparatorSkipped();
    PathSeparatorSkipped();
    BareHostTail();
  }

  lemma SchemeSeparatorSkipped()
    ensures AfterScheme("http://a.com//x") == AfterScheme("a.com//x")
  {
    assert "http://a.com//x" == "http:" + "//" + "a.com//x";
    AfterSchemeSlashFreeHead("http:", "a.com//x");
  }

  lemma PathSeparatorSkipped()
    ensures AfterScheme("a.com//x") == AfterScheme("x")
  {
    assert "a.com//x" == "a.com" + "//" + "x";
    AfterSchemeSlashFreeHead("a.com", "x");
  }

  lemma BareHostTail()
    ensures AfterScheme("x") == "x"
    ensures Split("x", "/")[0] == "x"
  {
    NoRoomNoMatch("x", "//");
    AfterSchemeSkipsFirstSeparator("x");
    WithoutCharNoMatch("x", '/');
    SplitWithoutSep("x", "/");
  }

  lemma LastOfTail<T>(s: seq<T>)
    requires |s| > 1
    ensures s[1..][|s| - 2] == s[|s| - 1]
  {
  }

  /** With three slashes the first two form the separator, so the host of `file:///x` is empty. */
  lemma TripleSlashHost()
    ensures AfterScheme("file:///x") == "/x"
    ensures ExtractHost("file:///x") == ""
  {
    var url := "file:///x";
    TripleSlashFirstSeparator();
    AfterSchemeSkipsFirstSeparator(url);
    assert url[7..] == "/x";
    LoneSlashTail();
    LeadingSlashPiece();
  }

  lemma LeadingSlashPiece()
    ensures Split("/x", "/")[0] == ""
  {
    SplitSepFirst("/", "x");
    assert "/" + "x" == "/x";
  }

  lemma TripleSlashFirstSeparator()
    ensures Contains("file:///x", "//") && FindFirst("file:///x", "//") == Some(5)
  {
    var url := "file:///x";
    assert "//" <= url[5..];
    var m := FindFirst(url, "//").value;
    assert url[m] == '/' && url[m + 1] == '/';
  }

  lemma LoneSlashTail()
    ensures AfterScheme("/x") == "/x"
  {
    var s := "/x";
    forall j | 0 <= j <= |s| ensures !("//" <= s[j..]) {
      if j == 0 {
        assert s[0..] == s;
        assert s[1] != '/';
      }
    }
    AfterSchemeSkipsFirstSeparator(s);
  }

  /**
   `url.split('//')[-1].split('/')[0]`: the text after the scheme separator, up
   to but not including the next slash.
   */
  function ExtractHost(url: string): (host: string)
    ensures '/' !in host
    ensures host <= AfterScheme(url)
    ensures |host| == |AfterScheme(url)| || AfterScheme(url)[|host|] == '/'
  {
    var tail := AfterScheme(url);
    UpToSlash(tail);
    Split(tail, "/")[0]
  }

  /** The first piece of a split on `/` is the text before the first slash. */
  lemma UpToSlash(s: string)
    ensures var first := Split(s, "/")[0];
      && '/' !in first && first <= s && (|first| == |s| || s[|first|] == '/')
  {
    var first := Split(s, "/")[0];
    SplitFirstPiece(s, "/");
    SplitPiecesAvoidSep(s, "/");
    assert !Contains(first, "/");
    if |first| < |s| {
      assert "/" <= s[|first|..];
    }
  }

  /** `get_ip_address(url)`: resolve the host of the URL; a failed lookup is `None`. */
  function GetIpAddress(resolve: string -> Option<string>, url: string): Option<string> {
    resolve(ExtractHost(url))
  }

  // ---------------------------------------------------------------------------
  // simple_web_crawler

  /** What BeautifulSoup finds in a fetched page: the title, the meta description, and every anchor's `href`. */
  datatype Document = Document(title: Option<string>, description: Option<string>, hrefs: seq<Option<string>>)

  /** The outcome of `requests.get`: an exception, or a status code and the parsed body. */
  datatype Response = TransportError | Fetched(status: int, document: Document)

  /** One call of the crawler: the URL it fetched, the depth it was given, and the record it saved, if any. */
  datatype Visit = Visit(url: string, depth: int, saved: Option<PageRecord>)

  function ErrorRecord(url: string): PageRecord {
    PageRecord(url, "Error", None, None)
  }

  function FailedRecord(url: string): PageRecord {
    PageRecord(url, "Failed", None, None)
  }

  /** `if ip_address['ip']`: a resolved, non-empty address. */
  predicate Resolved(ip: Option<string>) {
    ip.Some? && ip.value != ""
  }

  /** `if href and href.startswith('http')`. */
  predicate Followed(href: Option<string>) {
    href.Some? && href.value != "" && "http" <= href.value
  }

  /**
   The links the crawler follows from a page, in document order: every present
   `href` that starts with `http`, as often as it occurs, and nothing else.
   */
  function FollowedLinks(hrefs: seq<Option<string>>): (urls: seq<string>)
    ensures forall i :: 0 <= i < |urls| ==> "http" <= urls[i]
    ensures forall u :: multiset(urls)[u] == (if "http" <= u then multiset(hrefs)[Some(u)] else 0)
  {
    if |hrefs| == 0 then []
    else
      assert hrefs == [hrefs[0]] + hrefs[1..];
      (if Followed(hrefs[0]) then [hrefs[0].value] else []) + FollowedLinks(hrefs[1..])
  }

  /** One `href` is followed exactly when it is present and starts with `http`. */
  lemma FollowedLinksSingle(h: Option<string>)
    ensures FollowedLinks([h]) == (if h.Some? && "http" <= h.value then [h.value] else [])
  {
    assert [h][1..] == [];
  }

  /** The followed links of two runs of anchors are those of the first, then those of the second. */
  lemma {:induction false} FollowedLinksConcat(a: seq<Option<string>>, b: seq<Option<string>>)
    ensures FollowedLinks(a + b) == FollowedLinks(a) + FollowedLinks(b)
    decreases |a|
  {
    if |a| == 0 {
      assert a + b == b;
    } else {
      var h := if Followed(a[0]) then [a[0].value] else [];
      assert (a + b)[1..] == a[1..] + b;
      FollowedLinksConcat(a[1..], b);
      AppendAssoc(h, FollowedLinks(a[1..]), FollowedLinks(b));
    }
  }

  /**
   `simple_web_crawler(url, depth)`: the calls it makes, in pre-order. Every
   call fetches once and saves at most once, before it recurses.
   */
  function Crawl(fetch: string -> Response, resolve: string -> Option<string>, url: string, depth: int): (visits: seq<Visit>)
    ensures |visits| >= 1 && visits[0].url == url && visits[0].depth == depth
    ensures forall i :: 1 <= i < |visits| ==> 1 <= visits[i].depth < depth
    decreases depth, 0, 0
  {
    match fetch(url)
    case TransportError => [Visit(url, depth, Some(ErrorRecord(url)))]
    case Fetched(status, doc) =>
      if status != 200 then [Visit(url, depth, Some(FailedRecord(url)))]
      else if doc.title.None? then [Visit(url, depth, Some(ErrorRecord(url)))]
      else
        var ip := GetIpAddress(resolve, url);
        var saved := if Resolved(ip) then Some(PageRecord(url, doc.title.value, ip, doc.description)) else None;
        [Visit(url, depth, saved)] + (if depth > 1 then CrawlLinks(fetch, resolve, doc.hrefs, depth - 1) else [])
  }

  /** The loop over a page's anchors, each followed link crawled with the reduced depth. */
  function CrawlLinks(fetch: string -> Response, resolve: string -> Option<string>, hrefs: seq<Option<string>>, depth: int): (visits: seq<Visit>)
    requires depth >= 1
    ensures forall i :: 0 <= i < |visits| ==> 1 <= visits[i].depth <= depth
    decreases depth, 1, |hrefs|
  {
    if |hrefs| == 0 then []
    else
      var first := if Followed(hrefs[0]) then Crawl(fetch, resolve, hrefs[0].value, depth) else [];
      first + CrawlLinks(fetch, resolve, hrefs[1..], depth)
  }

  /** The records the crawl appended to the store, in the order it appended them. */
  function Saved(visits: seq<Visit>): seq<PageRecord> {
    if |visits| == 0 then []
    else (if visits[0].saved.Some? then [visits[0].saved.value] else []) + Saved(visits[1..])
  }

  /** The store after a crawl appended its records to `store`. */
  function CrawlStore(fetch: string -> Response, resolve: string -> Option<string>, store: string, url: string, depth: int): (store': string)
    ensures store <= store'
  {
    store + StoreText(Saved(Crawl(fetch, resolve, url, depth)))
  }

  // ---------------------------------------------------------------------------
  // Properties of the traversal

  /** A depth of one or less fetches the start page only: no link is followed. */
  lemma ShallowCrawlFetchesOnce(fetch: string -> Response, resolve: string -> Option<string>, url: string, depth: int)
    requires depth <= 1
    ensures Crawl(fetch, resolve, url, depth) == [Crawl(fetch, resolve, url, depth)[0]]
  {
  }

  /**
   A failed fetch saves exactly one sentinel record and stops there: `Error` for
   a transport error or a page without a title, `Failed` for a status other than 200.
   */
  lemma FailuresAreLeaves(fetch: string -> Response, resolve: string -> Option<string>, url: string, depth: int)
    ensures fetch(url).TransportError? ==>
      Crawl(fetch, resolve, url, depth) == [Visit(url, depth, Some(PageRecord(url, "Error", None, None)))]
    ensures fetch(url).Fetched? && fetch(url).status != 200 ==>
      Crawl(fetch, resolve, url, depth) == [Visit(url, depth, Some(PageRecord(url, "Failed", None, None)))]
    ensures fetch(url).Fetched? && fetch(url).status == 200 && fetch(url).document.title.None? ==>
      Crawl(fetch, resolve, url, depth) == [Visit(url, depth, Some(PageRecord(url, "Error", None, None)))]
  {
  }

  /**
   A page fetched with status 200 and a title is saved exactly when its host
   resolved to a non-empty address, and its links are crawled either way.
   */
  lemma SuccessSavedIffResolved(fetch: string -> Response, resolve: string -> Option<string>, url: string, depth: int)
    requires fetch(url).Fetched? && fetch(url).status == 200 && fetch(url).document.title.Some?
    ensures var visits := Crawl(fetch, resolve, url, depth); var doc := fetch(url).document;
      var ip := resolve(ExtractHost(url));
      && (visits[0].saved.Some? <==> Resolved(ip))
      && (visits[0].saved.Some? ==> visits[0].saved.value == PageRecord(url, doc.title.value, ip, doc.description))
      && visits[1..] == (if depth > 1 then CrawlLinks(fetch, resolve, doc.hrefs, depth - 1) else [])
  {
  }

  /** The URLs of the visits made with depth `d`, in order. */
  function UrlsAtDepth(visits: seq<Visit>, d: int): seq<string> {
    if |visits| == 0 then []
    else (if visits[0].depth == d then [visits[0].url] else []) + UrlsAtDepth(visits[1..], d)
  }

  lemma {:induction false} UrlsAtDepthConcat(a: seq<Visit>, b: seq<Visit>, d: int)
    ensures UrlsAtDepth(a + b, d) == UrlsAtDepth(a, d) + UrlsAtDepth(b, d)
    decreases |a|
  {
    if |a| == 0 {
      assert a + b == b;
    } else {
      var h := if a[0].depth == d then [a[0].url] else [];
      assert (a + b)[1..] == a[1..] + b;
      UrlsAtDepthConcat(a[1..], b, d);
      AppendAssoc(h, UrlsAtDepth(a[1..], d), UrlsAtDepth(b, d));
    }
  }

  lemma {:induction false} UrlsAtDepthBelow(visits: seq<Visit>, d: int)
    requires forall i :: 0 <= i < |visits| ==> visits[i].depth < d
    ensures UrlsAtDepth(visits, d) == []
    decreases |visits|
  {
    if |visits| > 0 {
      UrlsAtDepthBelow(visits[1..], d);
    }
  }

  /**
   The calls one level down are exactly the followed links, in document order,
   each as often as it occurs: links are never deduplicated.
   */
  lemma {:induction false} LinkLevelIsFollowedLinks(fetch: string -> Response, resolve: string -> Option<string>, hrefs: seq<Option<string>>, depth: int)
    requires depth >= 1
    ensures UrlsAtDepth(CrawlLinks(fetch, resolve, hrefs, depth), depth) == FollowedLinks(hrefs)
    decreases |hrefs|
  {
    if |hrefs| > 0 {
      var first := if Followed(hrefs[0]) then Crawl(fetch, resolve, hrefs[0].value, depth) else [];
      var rest := CrawlLinks(fetch, resolve, hrefs[1..], depth);
      var head := if Followed(hrefs[0]) then [hrefs[0].value] else [];
      UrlsAtDepthConcat(first, rest, depth);
      LinkLevelIsFollowedLinks(fetch, resolve, hrefs[1..], depth);
      if Followed(hrefs[0]) {
        UrlsAtDepthBelow(first[1..], depth);
        assert first == [first[0]] + first[1..];
        UrlsAtDepthConcat([first[0]], first[1..], depth);
      }
      assert UrlsAtDepth(first, depth) == head;
      assert FollowedLinks(hrefs) == head + FollowedLinks(hrefs[1..]);
    }
  }

  /** From a page fetched with a title at depth above one, the next level visits exactly its followed links. */
  lemma ChildrenAreFollowedLinks(fetch: string -> Response, resolve: string -> Option<string>, url: string, depth: int)
    requires fetch(url).Fetched? && fetch(url).status == 200 && fetch(url).document.title.Some?
    requires depth > 1
    ensures UrlsAtDepth(Crawl(fetch, resolve, url, depth)[1..], depth - 1) == FollowedLinks(fetch(url).document.hrefs)
  {
    LinkLevelIsFollowedLinks(fetch, resolve, fetch(url).document.hrefs, depth - 1);
  }

  lemma {:induction false} SavedConcat(a: seq<Visit>, b: seq<Visit>)
    ensures Saved(a + b) == Saved(a) + Saved(b)
    decreases |a|
  {
    if |a| == 0 {
      assert a + b == b;
    } else {
      var h := if a[0].saved.Some? then [a[0].saved.value] else [];
      assert (a + b)[1..] == a[1..] + b;
      SavedConcat(a[1..], b);
      AppendAssoc(h, Saved(a[1..]), Saved(b));
    }
  }

  /**
   No deduplication: every occurrence of a followed link saves that link's own
   record again, so a URL linked twice is stored at least twice.
   */
  lemma {:induction false} EveryLinkOccurrenceSaves(fetch: string -> Response, resolve: string -> Option<string>, hrefs: seq<Option<string>>, depth: int, u: string, rec: PageRecord)
    requires depth >= 1
    requires Crawl(fetch, resolve, u, depth)[0].saved == Some(rec)
    ensures multiset(Saved(CrawlLinks(fetch, resolve, hrefs, depth)))[rec] >= multiset(FollowedLinks(hrefs))[u]
    decreases |hrefs|
  {
    if |hrefs| > 0 {
      var first := if Followed(hrefs[0]) then Crawl(fetch, resolve, hrefs[0].value, depth) else [];
      var rest := CrawlLinks(fetch, resolve, hrefs[1..], depth);
      SavedConcat(first, rest);
      EveryLinkOccurrenceSaves(fetch, resolve, hrefs[1..], depth, u, rec);
      var head := if Followed(hrefs[0]) then [hrefs[0].value] else [];
      assert FollowedLinks(hrefs) == head + FollowedLinks(hrefs[1..]);
      if Followed(hrefs[0]) && hrefs[0].value == u {
        SavedLeader(first, rec);
      }
    }
  }

  /** A visit list that starts with a save of `rec` saves `rec` at least once. */
  lemma SavedLeader(visits: seq<Visit>, rec: PageRecord)
    requires |visits| > 0 && visits[0].saved == Some(rec)
    ensures multiset(Saved(visits))[rec] >= 1
  {
  }

  /** A saved record is a sentinel without address or description, or carries a resolved address. */
  predicate WellFormedSave(v: Visit) {
    v.saved.Some? ==>
      && v.saved.value.url == v.url
      && (|| (v.saved.value.name in {"Error", "Failed"} && v.saved.value.ip.None? && v.saved.value.description.None?)
          || Resolved(v.saved.value.ip))
  }

  /** Every record the traversal saves, at any depth, has that shape. */
  lemma {:induction false} CrawlSavesWellFormed(fetch: string -> Response, resolve: string -> Option<string>, url: string, depth: int)
    ensures forall i :: 0 <= i < |Crawl(fetch, resolve, url, depth)| ==> WellFormedSave(Crawl(fetch, resolve, url, depth)[i])
    decreases depth, 0, 0
  {
    var visits := Crawl(fetch, resolve, url, depth);
    if fetch(url).Fetched? && fetch(url).status == 200 && fetch(url).document.title.Some? && depth > 1 {
      CrawlLinksSaveWellFormed(fetch, resolve, fetch(url).document.hrefs, depth - 1);
      assert forall i :: 1 <= i < |visits| ==> visits[i] == visits[1..][i - 1];
    }
  }

  lemma {:induction false} CrawlLinksSaveWellFormed(fetch: string -> Response, resolve: string -> Option<string>, hrefs: seq<Option<string>>, depth: int)
    requires depth >= 1
    ensures forall i :: 0 <= i < |CrawlLinks(fetch, resolve, hrefs, depth)| ==> WellFormedSave(CrawlLinks(fetch, resolve, hrefs, depth)[i])
    decreases depth, 1, |hrefs|
  {
    if |hrefs| > 0 {
      var first := if Followed(hrefs[0]) then Crawl(fetch, resolve, hrefs[0].value, depth) else [];
      if Followed(hrefs[0]) {
        CrawlSavesWellFormed(fetch, resolve, hrefs[0].value, depth);
      }
      CrawlLinksSaveWellFormed(fetch, resolve, hrefs[1..], depth);
    }
  }

  /**
   The store a crawl writes parses back, record by record in visit order, to the
   saved records' four fields, followed by one empty map.
   */
  lemma CrawlStoreRoundTrip(fetch: string -> Response, resolve: string -> Option<string>, url: string, depth: int)
    requires forall r :: r in Saved(Crawl(fetch, resolve, url, depth)) ==> SingleLine(r)
    ensures ParseDatabase(CrawlStore(fetch, resolve, "", url, depth)) == ToPages(Saved(Crawl(fetch, resolve, url, depth))) + [map[]]
    ensures ParseDatabase(ReadBack(CrawlStore(fetch, resolve, "", url, depth))) == ToPages(Saved(Crawl(fetch, resolve, url, depth))) + [map[]]
  {
    var records := Saved(Crawl(fetch, resolve, url, depth));
    RoundTripReadStore(records);
    RoundTripStore(records);
    assert "" + StoreText(records) == StoreText(records);
  }
}
