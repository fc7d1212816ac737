# PM standards browser: verified model of its data logic

This project models, in Dafny, the data logic of a small browser for project-management
standards (PMBOK 7, PRINCE2, ISO 21500, ISO 21502). The system ingests CSV excerpts, serves
them over a JSON API and lets a browser client search and compare them. The parts modelled:

- **Server start-up load** (`server.js`).
  - The `standards.csv` row handler walks the rows in stream order.
    - A blank `Topic` cell takes the most recent non-blank topic.
    - A row is accepted when its topic, its trimmed standard and its untrimmed excerpt are all non-empty.
    - Each accepted row becomes a record whose `deep_link` comes from `generateDeepLink` and whose `section_reference` is its page.
  - The `comparisons.csv` handler joins the trimmed non-blank values of six columns with a blank line between them.
  - Module `Server`, file `Server.dfy`.
- **Serverless API** (`api/server.js`).
  - `/api/standards` runs the same row handler. It answers 404 when the file is missing and 500 when the CSV parser fails while streaming.
  - `/api/comparison/:topic` returns the raw rows whose trimmed, lower-cased topic equals the trimmed, lower-cased parameter.
  - Module `ApiServer`.
- **Browser client** (`public/js/app.js`). Module `App`, with the `PMStandardsApp` class.
  - The class holds the loaded records and the search index. The index is a `Map` from word to bucket; its key order is kept as a `seq` beside it.
  - `buildSearchIndex` fills the index.
  - `searchStandards` scans the keys for substrings, tallies hits by `id`, sorts them with a stable descending sort and keeps the first 10.
  - Also modelled: the `performSearch` guard, `resolveTopic` with its `norm`, and `getStandardsByFramework`.
  - The search specification is in `SearchIndex` and `Ranking`, the resolver in `Topics`, and the comparison-grid grouping, stats and `getBookLink` in `ComparisonView`.
- **Supporting modules.**
  - `Text`: ASCII models of the JavaScript string built-ins the code uses: `trim`, `toLowerCase`, `split(/\s+/)`, `replace(/RUN+/g, sep)`, `includes` and `join`.
  - `Seqs`: `filter`, `find`, `indexOf`, and `Map`/`Set` key order.
  - `Wrappers`: `Option` and `Result`.

Code that changes state in place is modelled as imperative Dafny:
- the row handlers (`Server.LoadStandards`, `Server.AggregateComparisons`, `ApiServer.CollectTopicRows`);
- the index build and the tally loops (`App.PMStandardsApp.BuildSearchIndex`, `App.VisitKeys`).

Each loop method is proved against a specification function. The properties the code promises are proved about those functions as lemmas.

Consequences of the code that a reader might not expect:
- The excerpt is tested untrimmed (`server.js:70`), unlike the topic and the standard, which are trimmed first. So an excerpt of white space alone is kept (`Server.BlankExcerptAccepted`).
- A record's score counts bucket entries, not (query word, index key) pairs. A bucket holds a record once per occurrence of the word in its text (`public/js/app.js:44-49`), so a word that occurs twice in one record scores twice for a single key.
- `/api/comparison/:topic` returns the raw CSV rows (`api/server.js:100`), not excerpt records. Their keys are `Standards` and `Page`, so the client's comparison view reads `item.standard` and `item.page` as `undefined`. Every card is then a placeholder, the stats line counts at most one standard (`undefined`) and no page (`ComparisonView.RawRowsView`).
- No record has a `subtopic` or a `content` key (`server.js:73-81`, `api/server.js:57-64`). Yet `displaySearchResults` renders `highlightText(result.subtopic, query)` and `result.content.substring(0, 100)` (`public/js/app.js:170-171`). So a non-empty result list makes rendering throw a TypeError: `highlightText` (`public/js/app.js:187-190`) gets a non-empty query and calls `replace` on `undefined`, so only "No results found" (`public/js/app.js:162-166`) is ever displayed. The model stops at the results handed over (`App.PMStandardsApp.PerformSearch`); rendering is not modelled.
- `fetch` does not reject on a 404 or 500 answer. The client therefore stores that answer's `{ error }` object as its records, and `buildSearchIndex` throws after clearing the index (`App.PMStandardsApp.LoadData`, `App.PMStandardsApp.Init`).

## Model

| member | source | states |
|---|---|---|
| Server.GenerateDeepLink | server.js:147-151 | The link starts with `#` and ends with the page. |
| Server.StandardIdIsJoinedWords | server.js:148 | The standard part of a link is the lower-cased white-space-separated words of the standard joined by `-`. It holds no white space and no upper case; `.replace(/iso/,'iso')` changes nothing. |
| Server.TopicIdChars | server.js:149 | The topic part of a link holds only `[a-z0-9_-]`. |
| Server.TopicIdIdempotent | server.js:149 | Slugging a topic part again gives it back. |
| Server.DeepLinkDeterminesPage | server.js:150 | For a fixed standard and topic, equal links mean equal pages. |
| Server.CellTextEmpty | server.js:64-69 | A cell reads as `''` exactly when it is absent or blank. |
| Server.VerdictAt | server.js:62-82 | The verdict on row `i` is the handler's call on that row, with `lastTopic` as the rows above it left it. |
| Server.AcceptsIff | server.js:64-73 | A row is accepted iff its effective topic, its trimmed standard and its untrimmed excerpt are all non-empty. |
| Server.LastTopicShape | server.js:59-65 | `lastTopic` is the topic of the latest row with a non-blank one, or `''` when there is none. |
| Server.EffectiveTopicIsLatest | server.js:59-66 | Forward-fill: a row's topic is its own trimmed topic if non-blank, otherwise that of the latest earlier row with one, otherwise `''`. |
| Server.ForwardFillExample | server.js:63-66 | Topics `[A, '', absent, B]` resolve to `[A, A, A, B]`. |
| Server.AcceptedInOrder | server.js:62-83 | The records are exactly the accepted rows' records, each once and in input order. A rejected row does not stop later rows. |
| Server.HandleRow | server.js:62-82 | The record the handler pushes for one row, if any, has a non-empty trimmed topic, a non-empty trimmed standard, a non-empty excerpt, its own deep link and `section_reference == page`. |
| Server.AcceptedWellFormed | server.js:73-81 | Every stored record satisfies that invariant. |
| Server.BlankExcerptAccepted | server.js:70-73 | Any non-empty excerpt made of white space alone, which trims to `''`, is accepted and kept as it is. |
| Server.HandlerStep | server.js:62-82 | One more row moves `lastTopic` and `standardsData` on as the handler's call on that row says. |
| Server.HandleData | server.js:62-83 | The `on('data')` callback returns the new `lastTopic` and the record the handler specification pushes. |
| Server.LoadStandards | server.js:56-83 | The stream loop returns exactly the accepted records in input order, each well-formed. |
| Server.AbsorbJoin | server.js:114-116 | Appending one cell, with `'\n\n'` only when the field is non-empty, extends the join of the column's earlier values by that cell. |
| Server.AggregatedFieldEmpty | server.js:100-131 | A field is `''` iff no row had a non-blank value in its column. |
| Server.ColumnValuesEmpty | server.js:114-131 | A column has no values iff every row's cell is absent or blank. |
| Server.AggregateComparisons | server.js:99-132 | Each of the six fields ends as the `'\n\n'`-join, in row order, of its column's trimmed non-blank values. |
| ApiServer.GetStandards | api/server.js:37-69 | 404 `standards.csv not found` when the file is absent, 500 with the parser's message when the CSV parser fails while streaming, otherwise the accepted records in row order, each well-formed. |
| ApiServer.TopicRows | api/server.js:97-101 | The rows returned are rows of the file, no more of them than the file has, each with a trimmed, lower-cased topic equal to the trimmed, lower-cased parameter. |
| ApiServer.CollectTopicRows | api/server.js:95-102 | The stream loop keeps exactly the rows the topic filter keeps. |
| ApiServer.GetComparisonByTopic | api/server.js:87-105 | 404 when the file is absent, 500 with the parser's message when the CSV parser fails while streaming, otherwise the topic's rows. |
| ApiServer.TopicRowsExactly | api/server.js:88-100 | A row is returned, unchanged and in input order, iff its trimmed, lower-cased topic equals the trimmed, lower-cased parameter. |
| ApiServer.BlankTopicNeverReturned | api/server.js:98-99 | There is no forward-fill, so for a non-blank parameter no row with an absent or blank topic is returned. |
| App.PMStandardsApp.constructor | public/js/app.js:3-10 | Starts with no records and an empty index. |
| App.PMStandardsApp.LoadData | public/js/app.js:18-31 | A fetched array of records replaces the old records. A 404 or 500 answer's `{ error }` object replaces them too, leaving no array. Nothing changes exactly when `public/js/app.js:25` does not run: a fetch rejects (either one, through `Promise.all`) or the standards JSON parse rejects. A later rejection of the comparisons parse leaves the new records in place. The index is untouched. |
| App.PMStandardsApp.BuildSearchIndex | public/js/app.js:33-53 | Clears the index. Over an array of records, it then leaves the index of every push over them; the result depends on the records alone, so building twice gives the same index. Over an `{ error }` object, `forEach` throws and the index stays empty. |
| App.PMStandardsApp.IndexRecord | public/js/app.js:36-52 | One record's word walk pushes it under each of its words longer than 2 characters, in order. |
| App.PMStandardsApp.PushWord | public/js/app.js:46-49 | A new word gets an empty bucket at the end of the key order, then the record joins that word's bucket. |
| App.PMStandardsApp.Init | public/js/app.js:12-16 | Loads, then indexes: the index is that of the loaded records, or empty when the records are an `{ error }` object. |
| App.PMStandardsApp.SearchStandards | public/js/app.js:124-149 | The result is the first 10 of the stable descending sort of the tally of the entries the query meets. Over an index built from the records, that is the ranked search over those records. |
| App.PMStandardsApp.PerformSearch | public/js/app.js:114-122 | A query shorter than 2 characters shows nothing; any other passes the ranked search results to `displaySearchResults`. |
| App.PMStandardsApp.ResolveTopic | public/js/app.js:356-366 | `''` for an empty keyword. A non-empty answer is from the given list, or a loaded record's topic when no list is given, and its normal form contains the keyword's. It throws (`None`) exactly when the keyword is non-empty, no list is given and the records are an `{ error }` object. |
| App.PMStandardsApp.GetStandardsByFramework | public/js/app.js:621-627 | Has one key per framework name present, whose count is that framework's number of records. It throws (`None`) exactly when the records are an `{ error }` object. |
| App.TallyEmpty | public/js/app.js:126 | A new `results` Map is the tally of no entries. |
| App.TallyAdd | public/js/app.js:133-139 | One entry met: a new id is appended to the key order with a fresh hit, and the id's score rises by one. The tally invariant is kept. |
| App.TallyValues | public/js/app.js:146 | `Array.from(results.values())` is the tally: first-met record per id, scored by how often the id was met. |
| App.Visit | public/js/app.js:133-139 | One entry met keeps the tally invariant. |
| App.VisitBucket | public/js/app.js:132-140 | Walking one bucket tallies its entries in order. |
| App.VisitKey | public/js/app.js:130-141 | A key's bucket is tallied only when the key contains the query word. |
| App.VisitKeys | public/js/app.js:130-142 | One query word's pass over the keys in `Map` order tallies every bucket of a key containing it. |
| App.IndexPush | public/js/app.js:46-49 | One push extends the index and its key order as the index specification says. |
| App.IndexOfIsWellFormed | public/js/app.js:33-53 | The key order lists each key of the index exactly once. |
| App.TopicsOf | public/js/app.js:360 | `[...new Set(topics)]` lists each topic of the records once, and nothing else. |
| App.IndexBucketMembers | public/js/app.js:36-51 | A key's bucket holds exactly the records having that word, the word being longer than 2 characters. |
| App.KeyEncountersFind | public/js/app.js:130-141 | A query word longer than 2 characters meets exactly the records with a word (longer than 2 characters) containing it. |
| App.EncountersFind | public/js/app.js:125-144 | A query meets exactly the records with an indexed word containing one of its words longer than 2 characters. |
| App.SearchHitsMatch | public/js/app.js:124-149 | Every hit is a loaded record matching the query, scored by how many entries with its id were met. |
| App.SearchCoversMatches | public/js/app.js:124-149 | Every record matching the query has its id among the tallied hits. |
| SearchIndex.IndexStep | public/js/app.js:46-49 | A push adds a new word at the end of the key order and the record at the end of that word's bucket. |
| SearchIndex.PostingsShape | public/js/app.js:37-50 | Every push is of a word longer than 2 characters, from the words of a record of the data, into that record's bucket. |
| SearchIndex.KeyIsToken | public/js/app.js:37-45 | Every index key is longer than 2 characters, free of white space and upper case, and a word of some record. |
| SearchIndex.BucketOfRecord | public/js/app.js:43-50 | One record enters a word's bucket once per occurrence of the word, when the word is longer than 2 characters. |
| SearchIndex.BucketsInDataOrder | public/js/app.js:36-52 | Buckets list records in data order, each once per occurrence of the word. |
| SearchIndex.KeyIffBucket | public/js/app.js:46-49 | A word is a key exactly when its bucket is non-empty. |
| SearchIndex.BucketByRecordMembers | public/js/app.js:36-52 | A record is in a word's bucket iff it is in the data and has that word, the word being longer than 2 characters. |
| Ranking.Tally | public/js/app.js:132-146 | One hit per distinct `id` met, in first-encounter order, each holding a record that was met. |
| Ranking.TallyFacts | public/js/app.js:133-146 | Each hit's record is the first entry met with its id; its score, at least 1, is the number of entries with that id. There are no more hits than entries. |
| Ranking.TallyDistinctIds | public/js/app.js:126-139 | Hits have pairwise distinct ids. |
| Ranking.TallyCovers | public/js/app.js:132-140 | Every entry met has its id among the hits. |
| Ranking.AbsentIdsCollapse | public/js/app.js:133 | When no entry has an `id` (rows as `/api/standards` of api/server.js serves them), all matches collapse into at most one hit. |
| Ranking.InsertSorted | public/js/app.js:147 | Inserting into a sorted list keeps it sorted by non-increasing score. |
| Ranking.InsertPermutes | public/js/app.js:147 | Inserting adds exactly the one hit. |
| Ranking.SortDesc | public/js/app.js:147 | The sort orders by non-increasing score and is a permutation. |
| Ranking.SortDescStable | public/js/app.js:147 | The sort is stable: the hits of each score keep their order. |
| Ranking.Top | public/js/app.js:148 | `.slice(0, 10)` is a prefix of at most 10 hits, and the whole list when it is short. |
| Ranking.RankedFacts | public/js/app.js:146-148 | At most 10 results, by non-increasing score, each a hit of the tally scoring at least 1. |
| Ranking.RankedTiesInEncounterOrder | public/js/app.js:146-148 | The results are a prefix of the sort, which keeps tied hits in first-encounter order. |
| Ranking.ShortWordsVisitNothing | public/js/app.js:128-129 | Query words of 2 characters or fewer meet no entry. |
| Ranking.ShortQueryFindsNothing | public/js/app.js:128-148 | A query whose words are all 2 characters or fewer has no results. |
| Ranking.KeyEncountersMembers | public/js/app.js:130-132 | For one query word, an entry is met iff it is in the bucket of some key containing the word. |
| Ranking.EncountersMembers | public/js/app.js:128-141 | An entry is met iff some query word longer than 2 characters meets it. |
| Topics.Norm | public/js/app.js:358 | `norm` yields `[a-z0-9 ]` text with single spaces between words and none at the ends. |
| Topics.NormalIsFixed | public/js/app.js:358 | Text in that form is its own `norm`. |
| Topics.NormIdempotent | public/js/app.js:358 | `norm(norm(s)) == norm(s)`. |
| Topics.ResolveIn | public/js/app.js:356-366 | `''` for an empty keyword; otherwise `''` or a list element whose normal form contains the keyword's. |
| Topics.ResolvePrefersExact | public/js/app.js:361-363 | The first exact normalised match, when it is non-empty, wins over every contains-match. |
| Topics.ResolveSkipsEmptyExact | public/js/app.js:361-365 | When the first exact normalised match is the empty topic, it is falsy: a later exact match does not win, and the first contains-match is chosen. |
| Topics.ResolveFallsBack | public/js/app.js:364-365 | With no exact match, the first contains-match is chosen. |
| ComparisonView.ByStandard | public/js/app.js:428 | A card's rows are rows of the data, no more of them than the data has, each of that card's standard. |
| ComparisonView.StandardSet | public/js/app.js:528 | The distinct standards are no more than the rows. |
| ComparisonView.StandardSetMembers | public/js/app.js:528 | A standard is counted iff some row names it. |
| ComparisonView.ComparisonStats | public/js/app.js:528-530 | The distinct standards and the page-referenced rows never exceed the total excerpts. |
| ComparisonView.ByStandardEmpty | public/js/app.js:428-434 | A card is empty iff no row names its standard. |
| ComparisonView.PlaceholdersAreMissing | public/js/app.js:428-449 | The "No content available" cards are those of names without rows. |
| ComparisonView.PlaceholdersComplementStats | public/js/app.js:481-486 | When every row is of a framed standard, placeholder cards plus counted standards make the four cards. |
| ComparisonView.ItemStats | public/js/app.js:528-530 | The stats line over items whose `standard` or `page` key may be absent; the total is the number of items. |
| ComparisonView.ItemViewOfRecords | public/js/app.js:428-530 | Over records with both keys, the stats line and the placeholder count equal those of the record view. |
| ComparisonView.RawRowsView | public/js/app.js:428-530 | Over the raw rows of api/server.js's `/api/comparison/:topic`, all four cards are placeholders, the stats line counts one standard (none for no rows) and no page. |
| ComparisonView.FrameworkCountsSum | public/js/app.js:621-627 | The per-framework counts add up to the number of records. |
| ComparisonView.EscapeDecode | public/js/app.js:424 | Decoding reads one escaped character back. |
| ComparisonView.EncodeDecode | public/js/app.js:424 | `decodeURIComponent(encodeURIComponent(s)) == s` for ASCII text. |
| ComparisonView.EncodedIsQuerySafe | public/js/app.js:424 | The encoding never yields `&`, `=`, `#` or white space. |
| ComparisonView.ViewerLinkCarries | public/js/app.js:424 | A viewer link's `file` and `title` parameters decode back to the path and title and hold no `&`. |
| ComparisonView.GetBookLink | public/js/app.js:409-425 | The link is `'#'`, or a viewer link of a standard that has both a book path and a book title. |
| ComparisonView.BookLinkUnknown | public/js/app.js:422-424 | Any standard but the four framed ones gets `'#'`. |
| ComparisonView.BookKnown | public/js/app.js:410-423 | Each framed standard has a non-empty ASCII book path and title. |
| ComparisonView.BookLinkKnown | public/js/app.js:409-425 | A framed standard gets the viewer link of its path, title and page, never `'#'`. |
| Text.TrimIdempotent | server.js:64-66 | Trimming trimmed text changes nothing, as `(rawTopic \|\| lastTopic).trim()` relies on. |
| Text.ReplaceSpacesIsJoinOfSplit | server.js:148 | Replacing white-space runs by a separator joins the split words with it. |
| Seqs.FilterByPositions | api/server.js:97-101 | A filter keeps exactly the matching elements, each once, in order. |

## Left out

- I/O and hosting:
  - Express routing, multer uploads and file renames, `fs` existence checks and streams, `csv-parser`, and SQLite. The parsed rows are the model's input, and a missing CSV or a CSV parser failure is a parameter (`ApiServer.CsvFile`).
  - A failure of the file read stream itself (a directory, a permission error, a file removed after the existence check) is not modelled. In `api/server.js:45-46` and `:95-96` the `'error'` listener is on the stream `.pipe(csv())` returns, and `pipe` does not forward the read stream's errors. So such a failure is an unhandled `'error'` event, not a 500 answer.
  - The `DELETE`/`INSERT` into SQLite: the records are returned in push order instead.
  - The `/api/search` and `/api/upload` routes of `server.js`: they use columns the schema does not have.
  - The passthrough route `/api/comparison` of `api/server.js`, which returns the parsed rows unchanged.
- The browser's DOM work: rendering, tabs, dropdowns, notifications, deep-link navigation, `highlightText` (which builds a RegExp from raw input), `createDashboardChart` (SVG and floating point), `loadDashboardStats` and `updateComparisonTabs`.
- Timing: the 300 ms debounce and `setTimeout`.
- `async`/`await` and `Promise.all`:
  - The constructor's call to `init()` is not modelled as a call; `Init` is the completed initialisation.
  - `LoadData` receives the outcome of `public/js/app.js:20-25` as `Option`. It is `None` exactly when line 25 does not run: either fetch rejects (a rejected `/api/comparison` fetch also drops a good standards answer), or the standards JSON parse rejects. Otherwise it is the parsed standards body, either the records or an `{ error }` object. A rejection of the comparisons parse on line 26 comes after the records are replaced, so it is `Some` too.
  - The `comparisons` field that line 26 fills is not modelled; nothing in the modelled logic reads it.
- App.PMStandardsApp.LoadData: while the records are an `{ error }` object, the model holds them as an empty record list plus the error message. Each modelled reading of them throws (`ResolveTopic` and `GetStandardsByFramework` give `None`, `BuildSearchIndex` stops after the clear). The rejected `init` promise is not modelled, as nothing in `init` follows `buildSearchIndex`.
- Unicode: case mapping, `\s` and `\w` are modelled over ASCII. `Text.Lower` maps `A-Z` only; white space is space, tab, line feed, carriage return, vertical tab and form feed.
- String length: `performSearch`'s `query.length` (`public/js/app.js:115`) and the `word.length > 2` tests of `buildSearchIndex` and `searchStandards` (`public/js/app.js:45`, `public/js/app.js:129`) count UTF-16 units. They are modelled as the length of the `char` sequence.
- `encodeURIComponent` is modelled for ASCII text only; the four book paths and titles are ASCII (`ComparisonView.BookKnown`). Non-ASCII input would be UTF-8 percent-encoded.
- Object keys:
  - In `getBookLink`, a standard named like an `Object.prototype` property (for example `constructor`) would read an inherited value. The model treats only the four listed names as present.
  - `getStandardsByFramework` returns a plain object, whose integer-like keys JavaScript enumerates first. The model returns a `map`, which has no order.
- ComparisonView.ByStandard, ComparisonView.ComparisonStats, ComparisonView.ItemStats: these take the comparison data as an array. `loadComparison` passes the parsed body of `/api/comparison/:topic` straight to `updateComparisonStats` and to `topicData.filter` (`public/js/app.js:402-406`, `:428`). That body is an `{ error }` object on a 404 (`api/server.js:92`) or a 500 (`api/server.js:104`, `server.js:193`), which `ApiServer.GetComparisonByTopic` models on the server side. On such a body `data.map` or `topicData.filter` throws, and the catch at `public/js/app.js:492-506` shows the "Error loading comparison data" card. That error path of the view is not modelled.
- App.PMStandardsApp.GetStandardsByFramework: `frameworks` is a plain object (`public/js/app.js:622`). A standard named like an `Object.prototype` property (for example `constructor` or `toString`) starts from the inherited value, so `(frameworks[name] || 0) + 1` yields a string such as `function Object() { [native code] }1`, and `__proto__` sets no key at all. The model counts these names like any other standard.
- `Server.CellText` assumes cells are text: a number or boolean cell, which a CSV parser does not produce, is not modelled. So the `Page === undefined \|\| Page === null` test of `server.js:69` and the `Page \|\| ''` test of `api/server.js:53` agree, and one definition serves both.
- `generateDeepLink` exists in both `server.js:147-151` and `api/server.js:26-30`, character for character. One definition (`Server.GenerateDeepLink`) models both, and the `/api/standards` handler reuses `Server.LoadStandards`.
- App.PMStandardsApp.ResolveTopic: its contract does not state the exact-match preference. That is stated over the chosen list by `Topics.ResolvePrefersExact` and `Topics.ResolveFallsBack`.
