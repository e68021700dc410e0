/**
 The flat-file store: the record text the crawler appends for every saved page,
 and the parser the search window runs over the whole file.
 */
module Store {
  import opened Wrappers
  import opened Text

  /** One visited page as the crawler saves it. */
  datatype PageRecord = PageRecord(url: string, name: string, ip: Option<string>, description: Option<string>)

  /** A parsed block: field name to field value. */
  type Page = map<string, string>

  /** How an f-string renders an optional value: Python's `None` becomes the text `None`. */
  function Render(v: Option<string>): string {
    match v
    case Some(s) => s
    case None => "None"
  }

  /** One `Key: Value` line. */
  function FieldLine(key: string, value: string): string {
    key + ": " + value
  }

  /** The four lines of a record, in the order they are written. */
  function FieldLines(r: PageRecord): seq<string> {
    [FieldLine("URL", r.url), FieldLine("Name", r.name), FieldLine("IP", Render(r.ip)), FieldLine("Description", Render(r.description))]
  }

  /** The text one save appends: the four field lines, each ended by a newline, then a blank line. */
  function Serialize(r: PageRecord): string {
    Join(FieldLines(r), "\n") + "\n\n"
  }

  /** Appending a record to the store never rewrites what is already there. */
  function Append(store: string, r: PageRecord): (store': string)
    ensures store <= store'
  {
    store + Serialize(r)
  }

  /** The store text after saving `records` in order to an empty file. */
  function StoreText(records: seq<PageRecord>): string
  {
    if |records| == 0 then "" else Serialize(records[0]) + StoreText(records[1..])
  }

  /** The map a parser should recover from one record. */
  function ToPage(r: PageRecord): Page {
    map["URL" := r.url, "Name" := r.name, "IP" := Render(r.ip), "Description" := Render(r.description)]
  }

  function ToPages(records: seq<PageRecord>): (pages: seq<Page>)
    ensures |pages| == |records|
  {
    if |records| == 0 then [] else [ToPage(records[0])] + ToPages(records[1..])
  }

  /** `line.split(': ', 1)` guarded by `': ' in line`. */
  function ParseLine(line: string): (kv: Option<(string, string)>)
    ensures kv.None? <==> !Contains(line, ": ")
    ensures kv.Some? ==> line == kv.value.0 + ": " + kv.value.1
    ensures kv.Some? ==> forall j :: 0 <= j < |kv.value.0| ==> !(": " <= line[j..])
  {
    match FindFirst(line, ": ")
    case Some(i) =>
      assert line == line[..i] + ": " + line[i + 2..] by {
        assert line[i..i + 2] == ": ";
      }
      Some((line[..i], line[i + 2..]))
    case None => None
  }

  /** `dict(...)` over the parsed lines: a later line with the same key wins. */
  function ParseLines(lines: seq<string>): map<string, string>
    decreases |lines|
  {
    if |lines| == 0 then map[]
    else
      var m := ParseLines(lines[..|lines| - 1]);
      match ParseLine(lines[|lines| - 1])
      case Some(kv) => m[kv.0 := kv.1]
      case None => m
  }

  /** One block of the store: its lines, split on `'\n'`. */
  function ParseEntry(entry: string): Page {
    ParseLines(Split(entry, "\n"))
  }

  function ParseEntries(entries: seq<string>): (pages: seq<Page>)
    ensures |pages| == |entries|
    ensures forall i :: 0 <= i < |entries| ==> pages[i] == ParseEntry(entries[i])
  {
    if |entries| == 0 then [] else [ParseEntry(entries[0])] + ParseEntries(entries[1..])
  }

  /** `parse_database`: one map per `'\n\n'`-separated chunk, in order. */
  function ParseDatabase(data: string): seq<Page> {
    ParseEntries(Split(data, "\n\n"))
  }

  // ---------------------------------------------------------------------------
  // What the parser does with any text

  /**
   The parse has exactly one map per chunk of the text between separators, in order,
   and the chunks put back together with the separator give the text again.
   */
  lemma ParseDatabaseChunks(data: string)
    ensures var chunks := Split(data, "\n\n"); var pages := ParseDatabase(data);
      && |pages| == |chunks| >= 1
      && Join(chunks, "\n\n") == data
      && (forall i :: 0 <= i < |chunks| ==> !Contains(chunks[i], "\n\n"))
      && (forall i :: 0 <= i < |pages| ==> pages[i] == ParseEntry(chunks[i]))
  {
    SplitPiecesAvoidSep(data, "\n\n");
  }

  /** An empty store, or an empty trailing chunk, still parses to one empty map. */
  lemma ParseEmpty()
    ensures ParseDatabase("") == [map[]]
    ensures ParseEntry("") == map[]
  {
    assert Split("", "\n") == [""];
    assert ParseLines([""]) == map[] by {
      assert [""][..0] == [];
    }
  }

  /** The line names key `k`. */
  predicate Defines(line: string, k: string) {
    ParseLine(line).Some? && ParseLine(line).value.0 == k
  }

  /** Parsing one more line updates the map by that line's pair, if it has one. */
  lemma ParseLinesSnoc(lines: seq<string>, line: string)
    ensures ParseLines(lines + [line]) ==
      match ParseLine(line)
      case Some(kv) => ParseLines(lines)[kv.0 := kv.1]
      case None => ParseLines(lines)
  {
    assert (lines + [line])[..|lines|] == lines;
  }

  /** A key is present exactly when some line names it. */
  lemma {:induction false} ParseLinesKeys(lines: seq<string>, k: string)
    ensures k in ParseLines(lines) <==> exists i :: 0 <= i < |lines| && Defines(lines[i], k)
    decreases |lines|
  {
    if |lines| > 0 {
      var n := |lines|;
      var front := lines[..n - 1];
      assert lines == front + [lines[n - 1]];
      ParseLinesKeys(front, k);
      ParseLinesSnoc(front, lines[n - 1]);
      if exists i :: 0 <= i < n - 1 && Defines(front[i], k) {
        var i :| 0 <= i < n - 1 && Defines(front[i], k);
        assert Defines(lines[i], k);
      }
      if exists i :: 0 <= i < n && Defines(lines[i], k) {
        var i :| 0 <= i < n && Defines(lines[i], k);
        if i < n - 1 {
          assert Defines(front[i], k);
        }
      }
    }
  }

  /** A present key carries the value of the last line that names it. */
  lemma {:induction false} ParseLinesLastWins(lines: seq<string>, k: string)
    requires k in ParseLines(lines)
    ensures exists i ::
      && 0 <= i < |lines|
      && ParseLine(lines[i]) == Some((k, ParseLines(lines)[k]))
      && (forall j :: i < j < |lines| ==> !Defines(lines[j], k))
    decreases |lines|
  {
    var n := |lines|;
    var front := lines[..n - 1];
    var last := lines[n - 1];
    assert lines == front + [last];
    ParseLinesSnoc(front, last);
    if Defines(last, k) {
      assert ParseLine(lines[n - 1]) == Some((k, ParseLines(lines)[k]));
    } else {
      assert k in ParseLines(front) && ParseLines(lines)[k] == ParseLines(front)[k];
      ParseLinesLastWins(front, k);
      var i :| 0 <= i < n - 1 && ParseLine(front[i]) == Some((k, ParseLines(front)[k]))
        && forall j :: i < j < n - 1 ==> !Defines(front[j], k);
      assert ParseLine(lines[i]) == Some((k, ParseLines(lines)[k]));
      forall j | i < j < n ensures !Defines(lines[j], k) {
        if j < n - 1 { assert lines[j] == front[j]; }
      }
    }
  }

  // ---------------------------------------------------------------------------
  // What the parser does with text the writer produced

  /**
   The record's field values contain no line break: neither `'\n'` nor `'\r'`,
   which reading the store back in text mode turns into `'\n'`.
   */
  predicate SingleLine(r: PageRecord) {
    && '\n' !in r.url && '\r' !in r.url
    && '\n' !in r.name && '\r' !in r.name
    && '\n' !in Render(r.ip) && '\r' !in Render(r.ip)
    && '\n' !in Render(r.description) && '\r' !in Render(r.description)
  }

  lemma FieldLinesSingle(r: PageRecord)
    requires SingleLine(r)
    ensures forall i :: 0 <= i < 4 ==> |FieldLines(r)[i]| > 0 && '\n' !in FieldLines(r)[i]
  {
  }

  /** Newline-joined lines free of newlines split back into those lines. */
  lemma {:induction false} SplitJoinedLines(lines: seq<string>)
    requires |lines| >= 1
    requires forall i :: 0 <= i < |lines| ==> '\n' !in lines[i]
    ensures Split(Join(lines, "\n"), "\n") == lines
    decreases |lines|
  {
    if |lines| == 1 {
      SplitPlainPrefix(lines[0], "", "\n");
      assert lines[0] + "" == lines[0];
    } else {
      var rest := Join(lines[1..], "\n");
      SplitJoinedLines(lines[1..]);
      SplitSepFirst("\n", rest);
      assert Join(lines, "\n") == lines[0] + ("\n" + rest);
      SplitPlainPrefix(lines[0], "\n" + rest, "\n");
      var r := [""] + lines[1..];
      assert r[0] == "" && r[1..] == lines[1..];
      assert lines[0] + "" == lines[0];
      assert lines == [lines[0]] + lines[1..];
    }
  }

  /** A newline followed by a line of text cannot start a blank-line separator. */
  lemma SplitLoneNewline(x: string)
    requires |x| > 0 && x[0] != '\n'
    ensures Split("\n" + x, "\n\n") == ["\n" + Split(x, "\n\n")[0]] + Split(x, "\n\n")[1..]
  {
    var y := "\n" + x;
    assert y[1] == x[0];
    SplitNoMatchHere(y, "\n\n");
    assert y[1..] == x;
  }

  /** The last line of a block, then a blank line, ends a chunk. */
  lemma SplitBlockLast(line: string, rest: string)
    requires '\n' !in line
    ensures Split(line + "\n\n" + rest, "\n\n") == [line] + Split(rest, "\n\n")
  {
    var r := Split(rest, "\n\n");
    SplitSepFirst("\n\n", rest);
    assert line + "\n\n" + rest == line + ("\n\n" + rest);
    SplitPlainPrefix(line, "\n\n" + rest, "\n\n");
    var r' := [""] + r;
    assert r'[0] == "" && r'[1..] == r;
    assert line + "" == line;
  }

  /** A line and a newline in front of a chunk's text stay in that chunk. */
  lemma SplitBlockLine(line: string, j: string, rest: string)
    requires '\n' !in line
    requires |j| > 0 && j[0] != '\n'
    requires Split(j + "\n\n" + rest, "\n\n") == [j] + Split(rest, "\n\n")
    ensures Split(line + "\n" + j + "\n\n" + rest, "\n\n") == [line + "\n" + j] + Split(rest, "\n\n")
  {
    var r := Split(rest, "\n\n");
    var x := j + "\n\n" + rest;
    assert x[0] == j[0];
    SplitLoneNewline(x);
    assert Split("\n" + x, "\n\n") == ["\n" + j] + r;
    assert line + "\n" + j + "\n\n" + rest == line + ("\n" + x);
    SplitPlainPrefix(line, "\n" + x, "\n\n");
    assert line + ("\n" + j) == line + "\n" + j;
  }

  /** A block of newline-joined lines, then a blank line, is one chunk of the store. */
  lemma {:induction false} SplitBlock(lines: seq<string>, rest: string)
    requires |lines| >= 1
    requires forall i :: 0 <= i < |lines| ==> |lines[i]| > 0 && '\n' !in lines[i]
    ensures Split(Join(lines, "\n") + "\n\n" + rest, "\n\n") == [Join(lines, "\n")] + Split(rest, "\n\n")
    decreases |lines|
  {
    if |lines| == 1 {
      SplitBlockLast(lines[0], rest);
    } else {
      var j := Join(lines[1..], "\n");
      SplitBlock(lines[1..], rest);
      JoinStartsWithHead(lines[1..], "\n");
      assert j[0] == lines[1][0];
      SplitBlockLine(lines[0], j, rest);
    }
  }

  /** A line `key: value` whose key has no colon parses back to that key and value. */
  lemma ParseFieldLine(key: string, value: string)
    requires ':' !in key
    ensures ParseLine(FieldLine(key, value)) == Some((key, value))
  {
    var line := FieldLine(key, value);
    assert ": " <= line[|key|..];
    var kv := ParseLine(line);
    assert forall j :: 0 <= j < |key| ==> line[j..][0] == key[j];
    assert |kv.value.0| == |key|;
    assert kv.value.0 == line[..|key|] == key;
    assert kv.value.1 == line[|key| + 2..] == value;
  }

  /** Parsing one more `key: value` line sets that key. */
  lemma ParseFieldStep(lines: seq<string>, key: string, value: string)
    requires ':' !in key
    ensures ParseLines(lines + [FieldLine(key, value)]) == ParseLines(lines)[key := value]
  {
    ParseFieldLine(key, value);
    ParseLinesSnoc(lines, FieldLine(key, value));
  }

  /** The written lines parse to exactly the record's four fields. */
  lemma ParseFieldLines(r: PageRecord)
    ensures ParseLines(FieldLines(r)) == ToPage(r)
  {
    var ip, desc := Render(r.ip), Render(r.description);
    var l0, l1, l2, l3 := FieldLine("URL", r.url), FieldLine("Name", r.name), FieldLine("IP", ip), FieldLine("Description", desc);
    ParseFieldStep([], "URL", r.url);
    ParseFieldStep([l0], "Name", r.name);
    ParseFieldStep([l0, l1], "IP", ip);
    ParseFieldStep([l0, l1, l2], "Description", desc);
    assert [] + [l0] == [l0];
    assert [l0] + [l1] == [l0, l1];
    assert [l0, l1] + [l2] == [l0, l1, l2];
    assert [l0, l1, l2] + [l3] == FieldLines(r);
    assert ParseLines([]) == map[];
  }

  /**
   Every saved record is exactly four lines, `URL`, `Name`, `IP`, `Description`
   in that order, and a blank line; an absent value is written as `None`.
   */
  lemma SerializedLines(r: PageRecord)
    requires SingleLine(r)
    ensures Split(Serialize(r), "\n") == FieldLines(r) + ["", ""]
    ensures Split(Serialize(r), "\n")[2] == "IP: " + (if r.ip.Some? then r.ip.value else "None")
    ensures Split(Serialize(r), "\n")[3] == "Description: " + (if r.description.Some? then r.description.value else "None")
  {
    var ls := FieldLines(r);
    FieldLinesSingle(r);
    JoinSnoc(ls, "", "\n");
    JoinSnoc(ls + [""], "", "\n");
    assert Serialize(r) == Join(ls + [""] + [""], "\n");
    assert ls + [""] + [""] == ls + ["", ""];
    SplitJoinedLines(ls + ["", ""]);
  }

  /** Round trip of one record: its block parses to its four fields, then the empty trailing chunk. */
  lemma RoundTripRecord(r: PageRecord)
    requires SingleLine(r)
    ensures ParseDatabase(Serialize(r)) == [ToPage(r), map[]]
  {
    RoundTripStore([r]);
    assert [r][1..] == [];
    assert Serialize(r) + "" == Serialize(r);
  }

  lemma SplitRecordBlock(r: PageRecord, rest: string)
    requires SingleLine(r)
    ensures Split(Serialize(r) + rest, "\n\n") == [Join(FieldLines(r), "\n")] + Split(rest, "\n\n")
  {
    FieldLinesSingle(r);
    SplitBlock(FieldLines(r), rest);
  }

  lemma ParseRecordBody(r: PageRecord)
    requires SingleLine(r)
    ensures ParseEntry(Join(FieldLines(r), "\n")) == ToPage(r)
  {
    FieldLinesSingle(r);
    SplitJoinedLines(FieldLines(r));
    ParseFieldLines(r);
  }

  /**
   Round trip of a whole store: the blocks of `records` parse to their maps in
   order, followed by one empty map for the text after the final blank line.
   */
  lemma {:induction false} RoundTripStore(records: seq<PageRecord>)
    requires forall r <- records :: SingleLine(r)
    ensures ParseDatabase(StoreText(records)) == ToPages(records) + [map[]]
    decreases |records|
  {
    if |records| == 0 {
      ParseEmpty();
    } else {
      var x, more := ToPage(records[0]), records[1..];
      StoreStep(records);
      RoundTripStore(more);
      ConsSnoc(x, ToPages(more), map[]);
    }
  }

  lemma ConsSnoc<T>(x: T, s: seq<T>, y: T)
    ensures [x] + (s + [y]) == ([x] + s) + [y]
  {
  }

  lemma StoreStep(records: seq<PageRecord>)
    requires |records| > 0 && SingleLine(records[0])
    ensures ParseDatabase(StoreText(records)) == [ToPage(records[0])] + ParseDatabase(StoreText(records[1..]))
    ensures ToPages(records) == [ToPage(records[0])] + ToPages(records[1..])
  {
    ParseRecordStep(records[0], StoreText(records[1..]));
  }

  /** One serialized record in front of any text parses to its map in front of that text's maps. */
  lemma ParseRecordStep(r: PageRecord, rest: string)
    requires SingleLine(r)
    ensures ParseDatabase(Serialize(r) + rest) == [ToPage(r)] + ParseDatabase(rest)
  {
    var body := Join(FieldLines(r), "\n");
    SplitRecordBlock(r, rest);
    ParseRecordBody(r);
    ParseEntriesCons(body, Split(rest, "\n\n"));
  }

  lemma ParseEntriesCons(entry: string, entries: seq<string>)
    ensures ParseEntries([entry] + entries) == [ParseEntry(entry)] + ParseEntries(entries)
  {
    assert ([entry] + entries)[1..] == entries;
  }

  // ---------------------------------------------------------------------------
  // Reading the store back

  /**
   What `open(path, 'r').read()` returns for a file holding `text`: universal
   newlines turn `"\r\n"` and a lone `'\r'` into `'\n'`.
   */
  function ReadBack(text: string): (read: string)
    ensures '\r' !in read
    ensures |read| <= |text|
    decreases |text|
  {
    if |text| == 0 then ""
    else if text[0] == '\r' then
      "\n" + ReadBack(if |text| > 1 && text[1] == '\n' then text[2..] else text[1..])
    else [text[0]] + ReadBack(text[1..])
  }

  /** Text without a carriage return reads back unchanged. */
  lemma {:induction false} ReadBackWithoutReturn(text: string)
    requires '\r' !in text
    ensures ReadBack(text) == text
    decreases |text|
  {
    if |text| > 0 {
      assert text[0] in text;
      assert forall c :: c in text[1..] ==> c in text;
      ReadBackWithoutReturn(text[1..]);
      assert text == [text[0]] + text[1..];
    }
  }

  /** Any character other than `'\r'` is kept as it is. */
  lemma ReadBackKeeps(c: char, s: string)
    requires c != '\r'
    ensures ReadBack([c] + s) == [c] + ReadBack(s)
  {
    assert ([c] + s)[1..] == s;
  }

  /** A lone `'\r'` reads back as `'\n'`. */
  lemma ReadBackLoneReturn(s: string)
    requires |s| == 0 || s[0] != '\n'
    ensures ReadBack("\r" + s) == "\n" + ReadBack(s)
  {
    assert ("\r" + s)[1..] == s;
  }

  /** `"\r\n"` reads back as a single `'\n'`. */
  lemma ReadBackReturnNewline(s: string)
    ensures ReadBack("\r\n" + s) == "\n" + ReadBack(s)
  {
    assert ("\r\n" + s)[2..] == s;
  }

  /** Text free of carriage returns in front of any text is kept as it is. */
  lemma {:induction false} ReadBackPrefix(a: string, t: string)
    requires '\r' !in a
    ensures ReadBack(a + t) == a + ReadBack(t)
    decreases |a|
  {
    if |a| == 0 {
      assert a + t == t;
    } else {
      assert a[0] in a;
      assert forall c :: c in a[1..] ==> c in a;
      assert a + t == [a[0]] + (a[1..] + t);
      ReadBackKeeps(a[0], a[1..] + t);
      ReadBackPrefix(a[1..], t);
      AppendAssoc([a[0]], a[1..], ReadBack(t));
      assert a == [a[0]] + a[1..];
    }
  }

  /**
   Between texts free of carriage returns, `"\r\n"` reads back as one line
   break, and so does a lone `'\r'` that no line break follows.
   */
  lemma ReturnReadsAsNewline(a: string, b: string)
    requires '\r' !in a && '\r' !in b
    ensures (|b| == 0 || b[0] != '\n') ==> ReadBack(a + "\r" + b) == a + "\n" + b
    ensures ReadBack(a + "\r\n" + b) == a + "\n" + b
  {
    ReadBackWithoutReturn(b);
    if |b| == 0 || b[0] != '\n' {
      AppendAssoc(a, "\r", b);
      ReadBackPrefix(a, "\r" + b);
      ReadBackLoneReturn(b);
    }
    AppendAssoc(a, "\r\n", b);
    ReadBackPrefix(a, "\r\n" + b);
    ReadBackReturnNewline(b);
    AppendAssoc(a, "\n", b);
  }

  lemma {:induction false} JoinAvoids(parts: seq<string>, sep: string, c: char)
    requires c !in sep
    requires forall i :: 0 <= i < |parts| ==> c !in parts[i]
    ensures c !in Join(parts, sep)
    decreases |parts|
  {
    if |parts| > 1 {
      JoinAvoids(parts[1..], sep, c);
    }
  }

  /** The text of single-line records holds no carriage return. */
  lemma {:induction false} StoreTextWithoutReturn(records: seq<PageRecord>)
    requires forall r <- records :: SingleLine(r)
    ensures '\r' !in StoreText(records)
    decreases |records|
  {
    if |records| > 0 {
      var r := records[0];
      assert SingleLine(r);
      JoinAvoids(FieldLines(r), "\n", '\r');
      StoreTextWithoutReturn(records[1..]);
    }
  }

  /**
   The round trip through the file: reading back the text of single-line
   records in text mode and parsing it gives their maps in order, then one
   empty map.
   */
  lemma RoundTripReadStore(records: seq<PageRecord>)
    requires forall r <- records :: SingleLine(r)
    ensures ParseDatabase(ReadBack(StoreText(records))) == ToPages(records) + [map[]]
  {
    StoreTextWithoutReturn(records);
    ReadBackWithoutReturn(StoreText(records));
    RoundTripStore(records);
  }

  /** Saving records one at a time produces the store text of all of them. */
  lemma {:induction false} AppendBuildsStore(records: seq<PageRecord>, r: PageRecord)
    ensures Append(StoreText(records), r) == StoreText(records + [r])
    decreases |records|
  {
    if |records| == 0 {
      assert [r][1..] == [];
    } else {
      assert (records + [r])[1..] == records[1..] + [r];
      AppendBuildsStore(records[1..], r);
    }
  }
}
