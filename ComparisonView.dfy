/**
 * The selections and counts behind the client's comparison page and
 * dashboard (public/js/app.js:408-428, 513-530, 621-627): the `byStandard`
 * grouping, the stats line, the placeholder cards, `getBookLink` with
 * `encodeURIComponent`, and what the per-framework counts are.
 */
module ComparisonView {
  import opened Wrappers
  import opened Text
  import opened Seqs
  import opened SearchIndex
  import Server

  // ---------------------------------------------------------------------------
  // Grouping by standard and the stats line

  /** `s.standard === name` */
  predicate StandardIs(s: Standard, name: string) {
    s.standard == name
  }

  /** `byStandard(name)`: the rows of one standard, in order. */
  function ByStandard(data: seq<Standard>, name: string): (rows: seq<Standard>)
    ensures |rows| <= |data|
    ensures forall i :: 0 <= i < |rows| ==> rows[i] in data && rows[i].standard == name
  {
    FilterByMembers(data, StandardIs, name);
    FilterBy(data, StandardIs, name)
  }

  function Names(data: seq<Standard>): seq<string> {
    seq(|data|, i requires 0 <= i < |data| => data[i].standard)
  }

  /** `new Set(data.map(item => item.standard))` */
  function StandardSet(data: seq<Standard>): (names: set<string>)
    ensures |names| <= |data|
  {
    if data == [] then {}
    else StandardSet(data[..|data| - 1]) + {data[|data| - 1].standard}
  }

  /** `item.page && item.page !== dash` */
  predicate HasPageReference(item: Standard, dash: string) {
    item.page != "" && item.page != dash
  }

  /** The three numbers of the comparison stats line. */
  datatype Stats = Stats(standardsWithData: nat, totalExcerpts: nat, pagesReferenced: nat)

  /** The stats line of `updateComparisonStats`: distinct standards and referenced pages never exceed the excerpts. */
  function ComparisonStats(data: seq<Standard>): (stats: Stats)
    ensures stats.totalExcerpts == |data|
    ensures stats.standardsWithData <= stats.totalExcerpts
    ensures stats.pagesReferenced <= stats.totalExcerpts
  {
    Stats(|StandardSet(data)|, |data|, |FilterBy(data, HasPageReference, "-")|)
  }

  /** The four cards of the comparison grid, in display order. */
  const CardNames: seq<string> := ["PMBOK 7", "PRINCE2", "ISO 21500", "ISO 21502"]

  /** How many of `names` get the "No content available" card: those with no rows. */
  function Placeholders(names: seq<string>, data: seq<Standard>): nat {
    if names == [] then 0
    else Placeholders(names[..|names| - 1], data) + (if ByStandard(data, names[|names| - 1]) == [] then 1 else 0)
  }

  /** How many rows each standard has: what `getStandardsByFramework` counts, summed over `names`. */
  function SumCounts(names: seq<string>, data: seq<Standard>): nat {
    if names == [] then 0
    else SumCounts(names[..|names| - 1], data) + |ByStandard(data, names[|names| - 1])|
  }

  // ---------------------------------------------------------------------------
  // Properties of grouping and counts

  lemma ByStandardSnoc(data: seq<Standard>, r: Standard, name: string)
    ensures ByStandard(data + [r], name) == ByStandard(data, name) + (if r.standard == name then [r] else [])
  {
    assert (data + [r])[..|data|] == data;
  }

  lemma NamesSnoc(data: seq<Standard>, r: Standard)
    ensures Names(data + [r]) == Names(data) + [r.standard]
  {
  }

  /** A standard is in the set exactly when some row names it. */
  lemma {:induction false} StandardSetMembers(data: seq<Standard>)
    ensures forall x :: x in StandardSet(data) <==> x in Names(data)
  {
    if data != [] {
      var n := |data| - 1;
      StandardSetMembers(data[..n]);
      assert data == data[..n] + [data[n]];
      NamesSnoc(data[..n], data[n]);
    }
  }

  /** A card is empty exactly when no row names its standard. */
  lemma ByStandardEmpty(data: seq<Standard>, name: string)
    ensures ByStandard(data, name) == [] <==> name !in Names(data)
  {
    var r := ByStandard(data, name);
    if name in Names(data) {
      var i :| 0 <= i < |data| && data[i].standard == name;
      FilterByMembers(data, StandardIs, name);
      assert data[i] in r;
    } else {
      assert forall i :: 0 <= i < |data| ==> Names(data)[i] == data[i].standard;
      FilterByNone(data, StandardIs, name);
    }
  }

  /** How many of `names` are not in `s`. */
  function MissingFrom(names: seq<string>, s: set<string>): nat {
    if names == [] then 0
    else MissingFrom(names[..|names| - 1], s) + (if names[|names| - 1] in s then 0 else 1)
  }

  lemma {:induction false} PlaceholdersAreMissing(names: seq<string>, data: seq<Standard>)
    ensures Placeholders(names, data) == MissingFrom(names, StandardSet(data))
  {
    if names != [] {
      var n := |names| - 1;
      PlaceholdersAreMissing(names[..n], data);
      StandardSetMembers(data);
      ByStandardEmpty(data, names[n]);
    }
  }

  lemma {:induction false} MissingFromAgree(names: seq<string>, s: set<string>, t: set<string>)
    requires forall y :: y in names ==> (y in s <==> y in t)
    ensures MissingFrom(names, s) == MissingFrom(names, t)
  {
    if names != [] {
      var n := |names| - 1;
      assert names[n] in names;
      MissingFromAgree(names[..n], s, t);
    }
  }

  /** Distinct names covering `s`: those missing from `s` and those in it make up all of them. */
  lemma {:induction false} MissingFromCount(names: seq<string>, s: set<string>)
    requires Distinct(names)
    requires forall y :: y in s ==> y in names
    ensures MissingFrom(names, s) + |s| == |names|
  {
    if names != [] {
      var n := |names| - 1;
      var ns, x := names[..n], names[n];
      var s' := s - {x};
      forall y | y in s'
        ensures y in ns
      {
        var i :| 0 <= i < |names| && names[i] == y;
        assert i != n;
      }
      assert x !in ns;
      MissingFromCount(ns, s');
      MissingFromAgree(ns, s, s');
      if x in s {
        assert s == s' + {x};
      } else {
        assert s == s';
      }
    }
  }

  /** The four card names are different. */
  lemma CardNamesDistinct()
    ensures Distinct(CardNames)
  {
    assert CardNames[0][1] != CardNames[1][1];
    assert CardNames[2][8] != CardNames[3][8];
  }

  /** The names a stats line counts all occur among the rows' names. */
  lemma StandardSetWithin(data: seq<Standard>, names: seq<string>)
    requires forall i :: 0 <= i < |data| ==> data[i].standard in names
    ensures forall x :: x in StandardSet(data) ==> x in names
  {
    StandardSetMembers(data);
    forall x | x in StandardSet(data)
      ensures x in names
    {
      var i :| 0 <= i < |data| && Names(data)[i] == x;
    }
  }

  /**
   * When every row belongs to one of the four framed standards, the grid shows
   * one placeholder card per framed standard the stats line does not count.
   */
  lemma PlaceholdersComplementStats(data: seq<Standard>)
    requires forall i :: 0 <= i < |data| ==> data[i].standard in CardNames
    ensures Placeholders(CardNames, data) + ComparisonStats(data).standardsWithData == |CardNames|
  {
    CardNamesDistinct();
    PlaceholdersAreMissing(CardNames, data);
    StandardSetWithin(data, CardNames);
    MissingFromCount(CardNames, StandardSet(data));
  }

  lemma {:induction false} SumCountsSnocRow(names: seq<string>, data: seq<Standard>, r: Standard)
    ensures SumCounts(names, data + [r]) == SumCounts(names, data) + CountOf(names, r.standard)
  {
    if names != [] {
      var n := |names| - 1;
      SumCountsSnocRow(names[..n], data, r);
      ByStandardSnoc(data, r, names[n]);
    }
  }

  lemma {:induction false} CountOfDistinct<T>(s: seq<T>, x: T)
    requires Distinct(s) && x in s
    ensures CountOf(s, x) == 1
  {
    var n := |s| - 1;
    assert s == s[..n] + [s[n]];
    if s[n] == x {
      CountOfPositive(s[..n], x);
    } else {
      CountOfDistinct(s[..n], x);
    }
  }

  /** The per-framework counts, taken in key order, add up to the number of records. */
  lemma {:induction false} FrameworkCountsSum(data: seq<Standard>)
    ensures SumCounts(Dedup(Names(data)), data) == |data|
  {
    if data != [] {
      var n := |data| - 1;
      var prefix, r := data[..n], data[n];
      FrameworkCountsSum(prefix);
      assert data == prefix + [r];
      NamesSnoc(prefix, r);
      var d', d := Dedup(Names(prefix)), Dedup(Names(data));
      assert (Names(prefix) + [r.standard])[..n] == Names(prefix);
      DedupSpec(Names(data));
      DedupSpec(Names(prefix));
      SumCountsSnocRow(d, prefix, r);
      CountOfDistinct(d, r.standard);
      if r.standard !in d' {
        assert d == d' + [r.standard];
        assert d[..|d| - 1] == d';
        ByStandardEmpty(prefix, r.standard);
      }
    }
  }

  // ---------------------------------------------------------------------------
  // Items that lack the `standard` or `page` key

  /**
   * An item of the comparison data as the view reads it: `item.standard` and
   * `item.page`, `None` where the key is absent and JavaScript reads `undefined`.
   */
  datatype ViewItem = ViewItem(standard: Option<string>, page: Option<string>)

  /** A record served by server.js (or `/api/standards`) has both keys. */
  function ItemOf(s: Standard): ViewItem {
    ViewItem(Some(s.standard), Some(s.page))
  }

  function Items(data: seq<Standard>): (items: seq<ViewItem>)
    ensures |items| == |data|
  {
    if data == [] then [] else Items(data[..|data| - 1]) + [ItemOf(data[|data| - 1])]
  }

  /**
   * A row served by `/api/comparison/:topic` of api/server.js is the raw CSV
   * row, whose keys are `Standards` and `Page`: the view reads neither.
   */
  function RawItem(row: Server.RawRow): ViewItem {
    ViewItem(None, None)
  }

  function RawItems(rows: seq<Server.RawRow>): (items: seq<ViewItem>)
    ensures |items| == |rows|
    ensures forall i :: 0 <= i < |items| ==> items[i] == ViewItem(None, None)
  {
    if rows == [] then [] else RawItems(rows[..|rows| - 1]) + [RawItem(rows[|rows| - 1])]
  }

  /** `item.standard === name`: never true of `undefined`. */
  predicate ItemIs(item: ViewItem, name: string) {
    item.standard == Some(name)
  }

  /** `item.page && item.page !== dash`: `undefined` is falsy. */
  predicate ItemHasPage(item: ViewItem, dash: string) {
    item.page.Some? && item.page.value != "" && item.page.value != dash
  }

  /** `new Set(data.map(item => item.standard))`, where `undefined` is one more member. */
  function ItemStandards(items: seq<ViewItem>): set<Option<string>> {
    if items == [] then {}
    else ItemStandards(items[..|items| - 1]) + {items[|items| - 1].standard}
  }

  /** `updateComparisonStats` over items as the view reads them. */
  function ItemStats(items: seq<ViewItem>): (stats: Stats)
    ensures stats.totalExcerpts == |items|
  {
    Stats(|ItemStandards(items)|, |items|, |FilterBy(items, ItemHasPage, "-")|)
  }

  /** The placeholder cards `makeCard` draws over items as the view reads them. */
  function ItemPlaceholders(names: seq<string>, items: seq<ViewItem>): nat {
    if names == [] then 0
    else ItemPlaceholders(names[..|names| - 1], items) + (if FilterBy(items, ItemIs, names[|names| - 1]) == [] then 1 else 0)
  }

  /** The standards of items with the key are the records' standards, one for one. */
  lemma {:induction false} ItemStandardsOfRecords(data: seq<Standard>)
    ensures forall o :: o in ItemStandards(Items(data)) <==> o.Some? && o.value in StandardSet(data)
    ensures |ItemStandards(Items(data))| == |StandardSet(data)|
  {
    if data != [] {
      var n := |data| - 1;
      var items := Items(data);
      ItemStandardsOfRecords(data[..n]);
      assert items[..n] == Items(data[..n]);
      var s, t := ItemStandards(Items(data[..n])), StandardSet(data[..n]);
      var x := data[n].standard;
      assert ItemStandards(items) == s + {Some(x)};
      assert StandardSet(data) == t + {x};
      if x in t {
        assert s + {Some(x)} == s;
        assert t + {x} == t;
      } else {
        assert Some(x) !in s;
      }
    }
  }

  /** Filtering items with the keys matches filtering the records. */
  lemma {:induction false} ItemFiltersOfRecords(data: seq<Standard>, name: string)
    ensures |FilterBy(Items(data), ItemHasPage, "-")| == |FilterBy(data, HasPageReference, "-")|
    ensures FilterBy(Items(data), ItemIs, name) == [] <==> ByStandard(data, name) == []
  {
    if data != [] {
      var n := |data| - 1;
      ItemFiltersOfRecords(data[..n], name);
      assert Items(data)[..n] == Items(data[..n]);
    }
  }

  lemma {:induction false} ItemPlaceholdersOfRecords(names: seq<string>, data: seq<Standard>)
    ensures ItemPlaceholders(names, Items(data)) == Placeholders(names, data)
  {
    if names != [] {
      var n := |names| - 1;
      ItemPlaceholdersOfRecords(names[..n], data);
      ItemFiltersOfRecords(data, names[n]);
    }
  }

  /** Over records that have both keys, the item view gives the stats line and the cards of the record view. */
  lemma ItemViewOfRecords(data: seq<Standard>)
    ensures ItemStats(Items(data)) == ComparisonStats(data)
    ensures ItemPlaceholders(CardNames, Items(data)) == Placeholders(CardNames, data)
  {
    ItemStandardsOfRecords(data);
    ItemFiltersOfRecords(data, "");
    ItemPlaceholdersOfRecords(CardNames, data);
  }

  lemma {:induction false} RawItemStandards(rows: seq<Server.RawRow>)
    ensures ItemStandards(RawItems(rows)) == if rows == [] then {} else {None}
  {
    if rows != [] {
      var n := |rows| - 1;
      RawItemStandards(rows[..n]);
      assert RawItems(rows)[..n] == RawItems(rows[..n]);
    }
  }

  lemma {:induction false} RawItemPlaceholders(names: seq<string>, rows: seq<Server.RawRow>)
    ensures ItemPlaceholders(names, RawItems(rows)) == |names|
  {
    if names != [] {
      RawItemPlaceholders(names[..|names| - 1], rows);
      FilterByNone(RawItems(rows), ItemIs, names[|names| - 1]);
    }
  }

  /**
   * The raw rows of api/server.js's `/api/comparison/:topic` leave every card a
   * placeholder, count at most one standard (`undefined`) and no page.
   */
  lemma RawRowsView(rows: seq<Server.RawRow>)
    ensures ItemStats(RawItems(rows)) == Stats(if rows == [] then 0 else 1, |rows|, 0)
    ensures ItemPlaceholders(CardNames, RawItems(rows)) == |CardNames|
  {
    RawItemStandards(rows);
    FilterByNone(RawItems(rows), ItemHasPage, "-");
    RawItemPlaceholders(CardNames, rows);
  }

  // ---------------------------------------------------------------------------
  // Book links

  predicate IsAscii(s: string) {
    forall i :: 0 <= i < |s| ==> s[i] < 128 as char
  }

  /** Characters `encodeURIComponent` leaves as they are: `A-Z a-z 0-9 - _ . ! ~ * ' ( )`. */
  predicate IsUnreserved(c: char) {
    'A' <= c <= 'Z' || 'a' <= c <= 'z' || '0' <= c <= '9'
    || c == '-' || c == '_' || c == '.' || c == '!' || c == '~' || c == '*' || c == '\'' || c == '(' || c == ')'
  }

  function HexDigit(n: nat): char
    requires n < 16
  {
    "0123456789ABCDEF"[n]
  }

  predicate IsHexDigit(c: char) {
    '0' <= c <= '9' || 'A' <= c <= 'F'
  }

  function HexValue(c: char): nat
    requires IsHexDigit(c)
  {
    if c <= '9' then c as nat - '0' as nat else c as nat - 'A' as nat + 10
  }

  /** What `encodeURIComponent` writes for one ASCII character: itself, or `%` and two upper-case hex digits. */
  function Escape(c: char): string
    requires c < 128 as char
  {
    if IsUnreserved(c) then [c] else ['%', HexDigit(c as nat / 16), HexDigit(c as nat % 16)]
  }

  /** `encodeURIComponent(s)` for ASCII text, one character at a time. */
  function EncodeUriComponent(s: string): string
    requires IsAscii(s)
  {
    if s == [] then [] else Escape(s[0]) + EncodeUriComponent(s[1..])
  }

  /** `decodeURIComponent(s)` for ASCII escapes: the inverse of the encoding. */
  function DecodeUriComponent(s: string): string {
    if s == [] then []
    else if |s| >= 3 && s[0] == '%' && IsHexDigit(s[1]) && IsHexDigit(s[2]) then
      [(HexValue(s[1]) * 16 + HexValue(s[2])) as char] + DecodeUriComponent(s[3..])
    else [s[0]] + DecodeUriComponent(s[1..])
  }

  /** `bookUrls[standard]` */
  function BookUrl(standard: string): Option<string> {
    if standard == "PMBOK 7" then Some("/assets/PMBOK.pdf")
    else if standard == "PRINCE2" then Some("/assets/PRINCE2.pdf")
    else if standard == "ISO 21500" then Some("/assets/ISO 21500-2021.pdf")
    else if standard == "ISO 21502" then Some("/assets/ISO 21502-2020.pdf")
    else None
  }

  /** `bookTitles[standard]` */
  function BookTitle(standard: string): Option<string> {
    if standard == "PMBOK 7" then Some("PMBOK Guide 7th Edition")
    else if standard == "PRINCE2" then Some("PRINCE2 7th Edition")
    else if standard == "ISO 21500" then Some("ISO 21500:2021")
    else if standard == "ISO 21502" then Some("ISO 21502:2020")
    else None
  }

  const ViewerPrefix := "pdf-viewer.html?file="

  /** `pdf-viewer.html?file=${encodeURIComponent(url)}&title=${encodeURIComponent(title)}&page=${page}` */
  function ViewerLink(url: string, title: string, page: string): string
    requires IsAscii(url) && IsAscii(title)
  {
    ViewerPrefix + EncodeUriComponent(url) + "&title=" + EncodeUriComponent(title) + "&page=" + page
  }

  /**
   * `getBookLink(standard, page)`: the PDF viewer link of a framed standard, else `'#'`.
   * The `!= ""` tests are the truthiness of `url && title`. The `IsAscii` tests stand
   * for nothing in the code: they let the link be built with the ASCII model of
   * `encodeURIComponent`, and they always hold, since `BookKnown` shows that every
   * book path and title is ASCII.
   */
  function GetBookLink(standard: string, page: string): (link: string)
    ensures link == "#" || (BookUrl(standard).Some? && BookTitle(standard).Some? && ViewerPrefix <= link)
  {
    var url, title := BookUrl(standard), BookTitle(standard);
    if url.Some? && url.value != "" && title.Some? && title.value != "" && IsAscii(url.value) && IsAscii(title.value) then
      ViewerLinkPrefix(url.value, title.value, page);
      ViewerLink(url.value, title.value, page)
    else "#"
  }

  lemma ViewerLinkPrefix(url: string, title: string, page: string)
    requires IsAscii(url) && IsAscii(title)
    ensures ViewerPrefix <= ViewerLink(url, title, page)
  {
    var rest := EncodeUriComponent(url) + "&title=" + EncodeUriComponent(title) + "&page=" + page;
    assert ViewerLink(url, title, page) == ViewerPrefix + rest;
  }

  // ---------------------------------------------------------------------------
  // Properties of book links

  lemma HexRoundTrip(n: nat)
    requires n < 16
    ensures IsHexDigit(HexDigit(n)) && HexValue(HexDigit(n)) == n
  {
  }

  /** Decoding reads one escaped character back and goes on after it. */
  lemma EscapeDecode(c: char, rest: string)
    requires c < 128 as char
    ensures DecodeUriComponent(Escape(c) + rest) == [c] + DecodeUriComponent(rest)
  {
    var e := Escape(c);
    if IsUnreserved(c) {
      assert (e + rest)[0] == c != '%';
      assert (e + rest)[1..] == rest;
    } else {
      HexRoundTrip(c as nat / 16);
      HexRoundTrip(c as nat % 16);
      assert (e + rest)[..3] == e;
      assert (e + rest)[3..] == rest;
    }
  }

  /** A character that does not end a query parameter: not `&`, `=`, `#` or white space. */
  predicate QuerySafe(c: char) {
    c != '&' && c != '=' && c != '#' && !IsSpace(c)
  }

  /** No escaped character ends a query parameter. */
  lemma EscapeIsQuerySafe(c: char)
    requires c < 128 as char
    ensures forall i :: 0 <= i < |Escape(c)| ==> QuerySafe(Escape(c)[i])
  {
  }

  /** Decoding the encoding gives the text back. */
  lemma {:induction false} EncodeDecode(s: string)
    requires IsAscii(s)
    ensures DecodeUriComponent(EncodeUriComponent(s)) == s
  {
    if s != [] {
      EncodeDecode(s[1..]);
      EscapeDecode(s[0], EncodeUriComponent(s[1..]));
      assert s == [s[0]] + s[1..];
    }
  }

  /** The encoding never yields a character that would end a query parameter: `&`, `=`, `#` or white space. */
  lemma {:induction false} EncodedIsQuerySafe(s: string)
    requires IsAscii(s)
    ensures forall i :: 0 <= i < |EncodeUriComponent(s)| ==> QuerySafe(EncodeUriComponent(s)[i])
  {
    if s != [] {
      EncodedIsQuerySafe(s[1..]);
      EscapeIsQuerySafe(s[0]);
      var e, rest := Escape(s[0]), EncodeUriComponent(s[1..]);
      forall i | 0 <= i < |e + rest|
        ensures QuerySafe((e + rest)[i])
      {
        if i >= |e| {
          assert (e + rest)[i] == rest[i - |e|];
        }
      }
    }
  }

  /** A standard without a book, anything but the four framed ones, gets `'#'`. */
  lemma BookLinkUnknown(standard: string, page: string)
    requires standard !in CardNames
    ensures GetBookLink(standard, page) == "#"
  {
  }

  /** A viewer link carries its path and title intact: each decodes back and holds no `&`. */
  lemma ViewerLinkCarries(url: string, title: string, page: string)
    requires IsAscii(url) && IsAscii(title)
    ensures exists f, t ::
      && ViewerLink(url, title, page) == ViewerPrefix + f + "&title=" + t + "&page=" + page
      && DecodeUriComponent(f) == url && DecodeUriComponent(t) == title
      && (forall i :: 0 <= i < |f| ==> f[i] != '&')
      && (forall i :: 0 <= i < |t| ==> t[i] != '&')
  {
    EncodeDecode(url);
    EncodeDecode(title);
    EncodedIsQuerySafe(url);
    EncodedIsQuerySafe(title);
    var f, t := EncodeUriComponent(url), EncodeUriComponent(title);
    assert ViewerLink(url, title, page) == ViewerPrefix + f + "&title=" + t + "&page=" + page;
  }

  lemma PmbokPathAscii() ensures IsAscii("/assets/PMBOK.pdf") { }
  lemma Prince2PathAscii() ensures IsAscii("/assets/PRINCE2.pdf") { }
  lemma Iso21500PathAscii() ensures IsAscii("/assets/ISO 21500-2021.pdf") { }
  lemma Iso21502PathAscii() ensures IsAscii("/assets/ISO 21502-2020.pdf") { }
  lemma PmbokTitleAscii() ensures IsAscii("PMBOK Guide 7th Edition") { }
  lemma Prince2TitleAscii() ensures IsAscii("PRINCE2 7th Edition") { }
  lemma Iso21500TitleAscii() ensures IsAscii("ISO 21500:2021") { }
  lemma Iso21502TitleAscii() ensures IsAscii("ISO 21502:2020") { }

  /** Each of the four framed standards has a non-empty ASCII book path and title. */
  lemma BookKnown(standard: string)
    requires standard in CardNames
    ensures BookUrl(standard).Some? && BookUrl(standard).value != "" && IsAscii(BookUrl(standard).value)
    ensures BookTitle(standard).Some? && BookTitle(standard).value != "" && IsAscii(BookTitle(standard).value)
  {
    PmbokPathAscii();
    Prince2PathAscii();
    Iso21500PathAscii();
    Iso21502PathAscii();
    PmbokTitleAscii();
    Prince2TitleAscii();
    Iso21500TitleAscii();
    Iso21502TitleAscii();
    assert standard == "PMBOK 7" || standard == "PRINCE2" || standard == "ISO 21500" || standard == "ISO 21502";
  }

  /** A framed standard gets the viewer link of its book's path and title. */
  lemma BookLinkKnown(standard: string, page: string)
    requires standard in CardNames
    ensures BookUrl(standard).Some? && BookTitle(standard).Some?
    ensures GetBookLink(standard, page) != "#"
    ensures GetBookLink(standard, page) == ViewerLink(BookUrl(standard).value, BookTitle(standard).value, page)
  {
    BookKnown(standard);
  }
}
