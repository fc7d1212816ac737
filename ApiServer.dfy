/**
 * The serverless API (api/server.js): the `/api/standards` route, which runs
 * the same forward-filling row handler as the server's start-up load, and the
 * `/api/comparison/:topic` route, which keeps the raw rows of one topic.
 * The CSV file is a parameter: absent, rejected by the CSV parser while it
 * streams, or parsed into rows.
 */
module ApiServer {
  import opened Wrappers
  import opened Text
  import opened Seqs
  import opened Server

  /** What streaming a CSV file through the CSV parser yields. */
  datatype CsvFile<R> = Missing | Unreadable(message: string) | Parsed(rows: seq<R>)

  /** An error response: status 404 or 500 with its `error` message. */
  datatype ApiError = NotFound(message: string) | ServerError(message: string)

  const StandardsMissing := "standards.csv not found"

  /**
   * `GET /api/standards`: 404 when the file is absent, 500 with the parser's
   * message when the CSV parser fails while streaming, and otherwise the
   * accepted records in row order.
   */
  method GetStandards(file: CsvFile<RawRow>) returns (response: Result<seq<Excerpt>, ApiError>)
    ensures file.Missing? ==> response == Failure(NotFound(StandardsMissing))
    ensures file.Unreadable? ==> response == Failure(ServerError(file.message))
    ensures file.Parsed? ==> response.Success? && response.value == Accepted(file.rows)
    ensures response.Success? ==> forall k :: 0 <= k < |response.value| ==> WellFormed(response.value[k])
  {
    match file
    case Missing =>
      response := Failure(NotFound(StandardsMissing));
    case Unreadable(message) =>
      response := Failure(ServerError(message));
    case Parsed(rows) =>
      var results := LoadStandards(rows);
      response := Success(results);
  }

  /** `s.trim().toLowerCase()`: how both the parameter and a row's topic are compared. */
  function TopicKey(s: string): string {
    Lower(Trim(s))
  }

  /** `(data.Topic || '').toString().trim().toLowerCase() === topic` */
  predicate TopicIs(row: RawRow, topic: string) {
    Lower(CellText(row.topic)) == topic
  }

  /** The rows `/api/comparison/:topic` answers with for parameter `param`. */
  function TopicRows(rows: seq<RawRow>, param: string): (kept: seq<RawRow>)
    ensures |kept| <= |rows|
    ensures forall i :: 0 <= i < |kept| ==> kept[i] in rows && Lower(CellText(kept[i].topic)) == TopicKey(param)
  {
    FilterByMembers(rows, TopicIs, TopicKey(param));
    FilterBy(rows, TopicIs, TopicKey(param))
  }

  /** The streaming loop of `/api/comparison/:topic`. */
  method CollectTopicRows(rows: seq<RawRow>, param: string) returns (results: seq<RawRow>)
    ensures results == TopicRows(rows, param)
  {
    var topic := Lower(Trim(param));
    results := [];
    var i := 0;
    while i < |rows|
      invariant i <= |rows|
      invariant results == FilterBy(rows[..i], TopicIs, topic)
    {
      var data := rows[i];
      var currentTopic := Lower(CellText(data.topic));
      if currentTopic == topic {
        results := results + [data];
      }
      assert rows[..i + 1][..i] == rows[..i];
      i := i + 1;
    }
    assert rows[..i] == rows;
  }

  /** `GET /api/comparison/:topic`: 404 when standards.csv is absent, 500 when the CSV parser fails, else the topic's rows. */
  method GetComparisonByTopic(file: CsvFile<RawRow>, param: string) returns (response: Result<seq<RawRow>, ApiError>)
    ensures file.Missing? ==> response == Failure(NotFound(StandardsMissing))
    ensures file.Unreadable? ==> response == Failure(ServerError(file.message))
    ensures file.Parsed? ==> response == Success(TopicRows(file.rows, param))
  {
    match file
    case Missing =>
      response := Failure(NotFound(StandardsMissing));
    case Unreadable(message) =>
      response := Failure(ServerError(message));
    case Parsed(rows) =>
      var results := CollectTopicRows(rows, param);
      response := Success(results);
  }

  // ---------------------------------------------------------------------------
  // Properties

  /**
   * The topic filter returns, unchanged and in input order, exactly the rows
   * whose trimmed, lower-cased topic equals the trimmed, lower-cased parameter,
   * each once.
   */
  lemma TopicRowsExactly(rows: seq<RawRow>, param: string)
    ensures var r, pos := TopicRows(rows, param), PositionsBy(rows, TopicIs, TopicKey(param));
      && |r| == |pos|
      && Increasing(pos)
      && (forall k :: 0 <= k < |pos| ==> pos[k] < |rows| && r[k] == rows[pos[k]])
      && (forall i :: 0 <= i < |rows| ==> (i in pos <==> TopicKey(CellText(rows[i].topic)) == TopicKey(param)))
  {
    FilterByPositions(rows, TopicIs, TopicKey(param));
    forall i | 0 <= i < |rows|
      ensures TopicKey(CellText(rows[i].topic)) == Lower(CellText(rows[i].topic))
    {
      CellTextTrimmed(rows[i].topic);
    }
  }

  /** Without forward-fill, a row whose topic cell is absent or blank is never returned for a non-blank parameter. */
  lemma BlankTopicNeverReturned(rows: seq<RawRow>, param: string)
    requires !IsBlank(param)
    ensures forall k :: 0 <= k < |TopicRows(rows, param)| ==>
      TopicRows(rows, param)[k].topic.Some? && !IsBlank(TopicRows(rows, param)[k].topic.value)
  {
    TrimBlank(param);
    var r := TopicRows(rows, param);
    FilterByMembers(rows, TopicIs, TopicKey(param));
    forall k | 0 <= k < |r|
      ensures r[k].topic.Some? && !IsBlank(r[k].topic.value)
    {
      assert TopicIs(r[k], TopicKey(param));
      CellTextEmpty(r[k].topic);
    }
  }
}
