/**
 * server.js: the row handler of `loadInitialData` that turns parsed
 * standards.csv rows into StandardExcerpt records (forward-filling blank
 * Topic cells), `generateDeepLink`, and the accumulation of comparisons.csv
 * rows into one aggregated comparison. The SQLite table the records end in is
 * not modelled; the records are returned in the order the handler pushes them.
 */
module Server {
  import opened Wrappers
  import opened Text
  import Seqs

  /** One parsed row of standards.csv; `None` is a column the row does not have. */
  datatype RawRow = RawRow(topic: Option<string>, standards: Option<string>, page: Option<string>, excerpt: Option<string>)

  /** A StandardExcerpt record as the handler pushes it. */
  datatype Excerpt = Excerpt(topic: string, standard: string, page: string, excerpt: string, deepLink: string, sectionReference: string)

  /** `(cell || '').toString().trim()`, also what `cell === undefined ? '' : String(cell).trim()` gives on a text cell. */
  function CellText(cell: Option<string>): string {
    match cell
    case None => ""
    case Some(s) => Trim(s)
  }

  /** A cell reads as '' exactly when it is missing or holds only white space. */
  lemma CellTextEmpty(cell: Option<string>)
    ensures CellText(cell) == "" <==> cell.None? || IsBlank(cell.value)
  {
    if cell.Some? {
      TrimBlank(cell.value);
    }
  }

  /** `(data.Excerpt || '').toString()`: the excerpt is not trimmed. */
  function ExcerptText(cell: Option<string>): string {
    match cell
    case None => ""
    case Some(s) => s
  }

  function RawTopic(row: RawRow): string { CellText(row.topic) }

  // ---------------------------------------------------------------------------
  // generateDeepLink (server.js:147-151)

  /** The characters `.replace(/[^\w-]/g, '')` keeps. */
  predicate IsSlugChar(c: char) { IsWordChar(c) || c == '-' }

  /** `[a-z0-9_-]` */
  predicate IsLowerSlugChar(c: char) { IsLowerAlnum(c) || c == '_' || c == '-' }

  /** `standard.toLowerCase().replace(/\s+/g, '-')`; the following `.replace(/iso/, 'iso')` changes nothing. */
  function StandardId(standard: string): string {
    ReplaceRuns(Lower(standard), IsSpace, "-")
  }

  /** `topic.toLowerCase().replace(/\s+/g, '-').replace(/[^\w-]/g, '')` */
  function TopicId(topic: string): string {
    Keep(ReplaceRuns(Lower(topic), IsSpace, "-"), IsSlugChar)
  }

  function GenerateDeepLink(standard: string, topic: string, page: string): (link: string)
    ensures |link| > |page| && link[0] == '#'
    ensures link[|link| - |page|..] == page
  {
    "#" + StandardId(standard) + "-" + TopicId(topic) + "-page-" + page
  }

  /** The standard part of a deep link is the lower-cased words of the standard joined by '-'. */
  lemma StandardIdIsJoinedWords(standard: string)
    ensures StandardId(standard) == Join(SplitWs(Lower(standard)), "-")
    ensures NoSpace(StandardId(standard)) && NoUpper(StandardId(standard))
  {
    ReplaceSpacesIsJoinOfSplit(Lower(standard), "-");
    ReplaceRunsChars(Lower(standard), IsSpace, "-", IsNonSpace);
    ReplaceRunsChars(Lower(standard), IsSpace, "-", c => !IsUpper(c));
  }

  /** The topic part of a deep link holds only `[a-z0-9_-]`. */
  lemma TopicIdChars(topic: string)
    ensures forall i :: 0 <= i < |TopicId(topic)| ==> IsLowerSlugChar(TopicId(topic)[i])
  {
    var dashed := ReplaceRuns(Lower(topic), IsSpace, "-");
    ReplaceRunsChars(Lower(topic), IsSpace, "-", c => !IsUpper(c));
    KeepChars(dashed, IsSlugChar, c => !IsUpper(c));
  }

  /** A topic part is its own topic part: the slug is canonical. */
  lemma TopicIdIdempotent(topic: string)
    ensures TopicId(TopicId(topic)) == TopicId(topic)
  {
    var t := TopicId(topic);
    TopicIdChars(topic);
    LowerFixed(t);
    ReplaceRunsFixed(t, IsSpace, "-");
    KeepFixed(t, IsSlugChar);
  }

  /** For a fixed standard and topic, different pages give different deep links. */
  lemma DeepLinkDeterminesPage(standard: string, topic: string, page1: string, page2: string)
    requires GenerateDeepLink(standard, topic, page1) == GenerateDeepLink(standard, topic, page2)
    ensures page1 == page2
  {
    var prefix := "#" + StandardId(standard) + "-" + TopicId(topic) + "-page-";
    assert GenerateDeepLink(standard, topic, page1)[|prefix|..] == page1;
    assert GenerateDeepLink(standard, topic, page2)[|prefix|..] == page2;
  }

  // ---------------------------------------------------------------------------
  // The standards.csv row handler (server.js:56-83, api/server.js:44-66)

  /** `lastTopic` once the handler has seen `rows`: the latest non-blank trimmed Topic, or '' before any. */
  function LastTopic(rows: seq<RawRow>): string {
    if rows == [] then ""
    else if RawTopic(rows[|rows| - 1]) != "" then RawTopic(rows[|rows| - 1])
    else LastTopic(rows[..|rows| - 1])
  }

  /** `(rawTopic || lastTopic).trim()` for a row, given `lastTopic` as it was before the row. */
  function TopicOf(data: RawRow, lastTopic: string): string {
    var rawTopic := RawTopic(data);
    var lastTopic' := if rawTopic != "" then rawTopic else lastTopic;
    Trim(if rawTopic != "" then rawTopic else lastTopic')
  }

  /**
   * One call of the handler on `data` with `lastTopic` as it was before it:
   * the record it pushes, or None when `topic && standard && excerpt` fails.
   */
  function HandleRow(data: RawRow, lastTopic: string): (pushed: Option<Excerpt>)
    ensures pushed.Some? ==> WellFormed(pushed.value)
  {
    var raw := RawTopic(data);
    TrimIdempotent(if raw != "" then raw else lastTopic);
    CellTextTrimmed(data.standards);
    CellTextTrimmed(data.page);
    var topic := TopicOf(data, lastTopic);
    var standard := CellText(data.standards);
    var page := CellText(data.page);
    var excerpt := ExcerptText(data.excerpt);
    if topic != "" && standard != "" && excerpt != "" then
      Some(Excerpt(topic, standard, page, excerpt, GenerateDeepLink(standard, topic, page), page))
    else None
  }

  /** The topic the handler gives row `i`. */
  function EffectiveTopic(rows: seq<RawRow>, i: nat): string
    requires i < |rows|
  {
    TopicOf(rows[i], LastTopic(rows[..i]))
  }

  /** Whether the handler pushes a record for row `i`. */
  predicate Accepts(rows: seq<RawRow>, i: nat)
    requires i < |rows|
  {
    HandleRow(rows[i], LastTopic(rows[..i])).Some?
  }

  /** The record the handler pushes for row `i`. */
  function Candidate(rows: seq<RawRow>, i: nat): Excerpt
    requires i < |rows| && Accepts(rows, i)
  {
    HandleRow(rows[i], LastTopic(rows[..i])).value
  }

  /** The handler's verdict on each row, in stream order. */
  function Verdicts(rows: seq<RawRow>): (v: seq<Option<Excerpt>>)
    ensures |v| == |rows|
  {
    if rows == [] then []
    else
      var n := |rows| - 1;
      Verdicts(rows[..n]) + [HandleRow(rows[n], LastTopic(rows[..n]))]
  }

  /** `standardsData` once the handler has seen `rows`. */
  function Accepted(rows: seq<RawRow>): seq<Excerpt> {
    Seqs.Somes(Verdicts(rows))
  }

  lemma VerdictsSnoc(rows: seq<RawRow>)
    requires rows != []
    ensures Verdicts(rows) == Verdicts(rows[..|rows| - 1]) + [HandleRow(rows[|rows| - 1], LastTopic(rows[..|rows| - 1]))]
  {
  }

  /** The verdict on row `i` is the handler's call on it with `lastTopic` as the rows above left it. */
  lemma {:induction false} VerdictAt(rows: seq<RawRow>, i: nat)
    requires i < |rows|
    ensures Verdicts(rows)[i] == HandleRow(rows[i], LastTopic(rows[..i]))
  {
    var n := |rows| - 1;
    var prev := rows[..n];
    VerdictsSnoc(rows);
    if i < n {
      VerdictAt(prev, i);
      assert prev[..i] == rows[..i] && prev[i] == rows[i];
    }
  }

  /** A row is accepted exactly when its effective topic, its trimmed standard and its untrimmed excerpt are all non-empty. */
  lemma AcceptsIff(rows: seq<RawRow>, i: nat)
    requires i < |rows|
    ensures Accepts(rows, i) <==>
      EffectiveTopic(rows, i) != "" && CellText(rows[i].standards) != "" && ExcerptText(rows[i].excerpt) != ""
  {
  }

  /** What a stored record satisfies (the StandardExcerpt invariant). */
  predicate WellFormed(r: Excerpt) {
    && r.topic != "" && r.standard != "" && r.excerpt != ""
    && Trim(r.topic) == r.topic && Trim(r.standard) == r.standard && Trim(r.page) == r.page
    && r.deepLink == GenerateDeepLink(r.standard, r.topic, r.page)
    && r.sectionReference == r.page
  }

  /** The position of the latest row of `rows` whose Topic is non-blank, or -1 when there is none. */
  function LatestTopicRow(rows: seq<RawRow>): (j: int)
    ensures -1 <= j < |rows|
  {
    if rows == [] then -1
    else if RawTopic(rows[|rows| - 1]) != "" then |rows| - 1
    else LatestTopicRow(rows[..|rows| - 1])
  }

  /** `LastTopic` is the Topic of the latest row with a non-blank one, and '' when there is none. */
  lemma {:induction false} LastTopicShape(rows: seq<RawRow>)
    ensures var j := LatestTopicRow(rows);
      && (j == -1 ==> LastTopic(rows) == "")
      && (j >= 0 ==> LastTopic(rows) == RawTopic(rows[j]) != "")
      && (forall k :: j < k < |rows| ==> RawTopic(rows[k]) == "")
  {
    if rows != [] {
      var n := |rows| - 1;
      LastTopicShape(rows[..n]);
      var j := LatestTopicRow(rows[..n]);
      if RawTopic(rows[n]) == "" {
        assert j >= 0 ==> rows[..n][j] == rows[j];
        forall k | j < k < |rows|
          ensures RawTopic(rows[k]) == ""
        {
          if k < n {
            assert rows[..n][k] == rows[k];
          }
        }
      }
    }
  }

  /**
   * Forward-fill: the effective topic of a row is the Topic of the latest row
   * up to and including it whose Topic is non-blank, or '' when there is
   * none; `lastTopic` after the row holds the same value.
   */
  lemma {:induction false} EffectiveTopicIsLatest(rows: seq<RawRow>, i: nat)
    requires i < |rows|
    ensures EffectiveTopic(rows, i) == LastTopic(rows[..i + 1])
    ensures var j := LatestTopicRow(rows[..i + 1]);
      && (j == -1 ==> EffectiveTopic(rows, i) == "")
      && (j >= 0 ==> EffectiveTopic(rows, i) == RawTopic(rows[j]) != "")
      && (forall k :: j < k <= i ==> RawTopic(rows[k]) == "")
  {
    var p := rows[..i + 1];
    assert p[..i] == rows[..i] && p[i] == rows[i];
    LastTopicShape(p);
    var j := LatestTopicRow(p);
    assert j >= 0 ==> p[j] == rows[j];
    forall k | j < k <= i
      ensures RawTopic(rows[k]) == ""
    {
      assert p[k] == rows[k];
    }
    var raw := RawTopic(rows[i]);
    if raw == "" {
      LastTopicShape(rows[..i]);
      var l := LastTopic(rows[..i]);
      var j' := LatestTopicRow(rows[..i]);
      if j' >= 0 {
        assert rows[..i][j'] == rows[j'];
        TrimIdempotent(rows[j'].topic.value);
      }
    } else {
      TrimIdempotent(rows[i].topic.value);
    }
  }

  /** Topics [A, '', '', B] resolve to [A, A, A, B]. */
  lemma ForwardFillExample(a: string, b: string, rows: seq<RawRow>)
    requires |rows| == 4 && Trim(a) == a != "" && Trim(b) == b != ""
    requires rows[0].topic == Some(a) && rows[1].topic == Some("") && rows[2].topic == None && rows[3].topic == Some(b)
    ensures EffectiveTopic(rows, 0) == a && EffectiveTopic(rows, 1) == a
    ensures EffectiveTopic(rows, 2) == a && EffectiveTopic(rows, 3) == b
  {
    assert Trim("") == "";
    assert rows[..2][..1] == rows[..1];
    assert LastTopic(rows[..1]) == a;
    assert LastTopic(rows[..2]) == a;
    assert LastTopic(rows[..3]) == LastTopic(rows[..2]) by { assert rows[..3][..2] == rows[..2]; }
  }

  /**
   * Acceptance keeps exactly the rows whose effective topic, trimmed standard
   * and untrimmed excerpt are non-empty, in input order: a rejected row does
   * not stop the rows after it.
   */
  lemma AcceptedInOrder(rows: seq<RawRow>)
    ensures var pos := Seqs.SomePositions(Verdicts(rows));
      && |Accepted(rows)| == |pos|
      && Seqs.Increasing(pos)
      && (forall k :: 0 <= k < |pos| ==>
            pos[k] < |rows| && Accepts(rows, pos[k]) && Accepted(rows)[k] == Candidate(rows, pos[k]))
      && (forall i :: 0 <= i < |rows| ==> (i in pos <==> Accepts(rows, i)))
  {
    var v := Verdicts(rows);
    Seqs.SomesPositions(v);
    forall i | 0 <= i < |rows|
      ensures v[i] == HandleRow(rows[i], LastTopic(rows[..i]))
    {
      VerdictAt(rows, i);
    }
  }

  /** Every record the handler keeps satisfies the StandardExcerpt invariant. */
  lemma AcceptedWellFormed(rows: seq<RawRow>)
    ensures forall k :: 0 <= k < |Accepted(rows)| ==> WellFormed(Accepted(rows)[k])
  {
    var v := Verdicts(rows);
    Seqs.SomesPositions(v);
    var pos := Seqs.SomePositions(v);
    forall k | 0 <= k < |Accepted(rows)|
      ensures WellFormed(Accepted(rows)[k])
    {
      VerdictAt(rows, pos[k]);
    }
  }

  lemma CellTextTrimmed(cell: Option<string>)
    ensures Trim(CellText(cell)) == CellText(cell)
  {
    if cell.Some? {
      TrimIdempotent(cell.value);
    }
  }

  /**
   * The excerpt is not trimmed: an excerpt of white space alone, which would
   * trim to `''`, is accepted and kept as it is.
   */
  lemma BlankExcerptAccepted(rows: seq<RawRow>, i: nat, e: string)
    requires i < |rows| && EffectiveTopic(rows, i) != "" && CellText(rows[i].standards) != ""
    requires rows[i].excerpt == Some(e) && e != "" && IsBlank(e)
    ensures Trim(e) == ""
    ensures Accepts(rows, i) && Candidate(rows, i).excerpt == e
  {
    TrimBlank(e);
  }

  /** One more row: `lastTopic` and `standardsData` move on as the handler's call on it says. */
  lemma HandlerStep(rows: seq<RawRow>, i: nat, pushed: Option<Excerpt>)
    requires i < |rows| && pushed == HandleRow(rows[i], LastTopic(rows[..i]))
    ensures LastTopic(rows[..i + 1]) == if RawTopic(rows[i]) != "" then RawTopic(rows[i]) else LastTopic(rows[..i])
    ensures Accepted(rows[..i + 1]) == Accepted(rows[..i]) + if pushed.Some? then [pushed.value] else []
  {
    var p := rows[..i + 1];
    assert p[..i] == rows[..i] && p[i] == rows[i];
    VerdictsSnoc(p);
    var v := Verdicts(p);
    assert v[..|v| - 1] == Verdicts(rows[..i]);
  }

  /**
   * The `on('data')` callback on one row, step by step: the method form of
   * `HandleRow`, which it returns together with the new `lastTopic`.
   */
  method HandleData(data: RawRow, lastTopic: string) returns (lastTopic': string, pushed: Option<Excerpt>)
    ensures lastTopic' == if RawTopic(data) != "" then RawTopic(data) else lastTopic
    ensures pushed == HandleRow(data, lastTopic)
  {
    var rawTopic := CellText(data.topic);
    lastTopic' := lastTopic;
    if rawTopic != "" {
      lastTopic' := rawTopic;
    }
    var topic := Trim(if rawTopic != "" then rawTopic else lastTopic');
    var standard := CellText(data.standards);
    var page := CellText(data.page);
    var excerpt := ExcerptText(data.excerpt);
    pushed := None;
    if topic != "" && standard != "" && excerpt != "" {
      pushed := Some(Excerpt(topic, standard, page, excerpt, GenerateDeepLink(standard, topic, page), page));
    }
  }

  /** The standards.csv rows streamed through the callback, in order. */
  method LoadStandards(rows: seq<RawRow>) returns (standardsData: seq<Excerpt>)
    ensures standardsData == Accepted(rows)
    ensures forall k :: 0 <= k < |standardsData| ==> WellFormed(standardsData[k])
  {
    standardsData := [];
    var lastTopic := "";
    var i := 0;
    while i < |rows|
      invariant i <= |rows|
      invariant lastTopic == LastTopic(rows[..i])
      invariant standardsData == Accepted(rows[..i])
    {
      var pushed;
      lastTopic, pushed := HandleData(rows[i], lastTopic);
      HandlerStep(rows, i, pushed);
      if pushed.Some? {
        standardsData := standardsData + [pushed.value];
      }
      i := i + 1;
    }
    assert rows[..i] == rows;
    AcceptedWellFormed(rows);
  }

  // ---------------------------------------------------------------------------
  // The comparisons.csv row handler (server.js:99-131)

  /** One parsed row of comparisons.csv: the six columns the handler reads. */
  datatype ComparisonRow = ComparisonRow(
    similarities: Option<string>, differences: Option<string>,
    uniquePmbok: Option<string>, uniquePrince2: Option<string>,
    uniqueIso21500: Option<string>, uniqueIso21502: Option<string>)

  /** The columns 'Similarities', 'Differences', 'Unique PMBOK 7', 'Unique PRINCE2', 'Unique ISO 21500', 'Unique ISO 21502'. */
  datatype Column = Similarities | Differences | UniquePmbok | UniquePrince2 | UniqueIso21500 | UniqueIso21502

  /** The `aggregatedComparison` object, one field per column. */
  datatype AggregatedComparison = AggregatedComparison(
    similarities: string, differences: string,
    uniquePmbok: string, uniquePrince2: string,
    uniqueIso21500: string, uniqueIso21502: string)

  const Separator := "\n\n"

  function CellOf(row: ComparisonRow, col: Column): Option<string> {
    match col
    case Similarities => row.similarities
    case Differences => row.differences
    case UniquePmbok => row.uniquePmbok
    case UniquePrince2 => row.uniquePrince2
    case UniqueIso21500 => row.uniqueIso21500
    case UniqueIso21502 => row.uniqueIso21502
  }

  function FieldOf(agg: AggregatedComparison, col: Column): string {
    match col
    case Similarities => agg.similarities
    case Differences => agg.differences
    case UniquePmbok => agg.uniquePmbok
    case UniquePrince2 => agg.uniquePrince2
    case UniqueIso21500 => agg.uniqueIso21500
    case UniqueIso21502 => agg.uniqueIso21502
  }

  /** `value && value.trim()` */
  predicate HasContent(cell: Option<string>) {
    cell.Some? && cell.value != "" && Trim(cell.value) != ""
  }

  /** The trimmed values of column `col` that have content, in row order. */
  function ColumnValues(rows: seq<ComparisonRow>, col: Column): (vs: seq<string>)
    ensures forall k :: 0 <= k < |vs| ==> vs[k] != ""
  {
    if rows == [] then []
    else
      var cell := CellOf(rows[|rows| - 1], col);
      ColumnValues(rows[..|rows| - 1], col) + (if HasContent(cell) then [Trim(cell.value)] else [])
  }

  /** `field += (field ? '\n\n' : '') + value.trim()`, done only when the value has content. */
  function Absorb(field: string, cell: Option<string>): string {
    if HasContent(cell) then field + (if field != "" then Separator else "") + Trim(cell.value) else field
  }

  /** A field is '' exactly when no row had content in its column. */
  lemma AggregatedFieldEmpty(rows: seq<ComparisonRow>, col: Column)
    ensures Join(ColumnValues(rows, col), Separator) == "" <==> ColumnValues(rows, col) == []
    ensures ColumnValues(rows, col) == [] <==> forall i :: 0 <= i < |rows| ==> !HasContent(CellOf(rows[i], col))
  {
    JoinEmpty(ColumnValues(rows, col), Separator);
    ColumnValuesEmpty(rows, col);
  }

  lemma {:induction false} ColumnValuesEmpty(rows: seq<ComparisonRow>, col: Column)
    ensures ColumnValues(rows, col) == [] <==> forall i :: 0 <= i < |rows| ==> !HasContent(CellOf(rows[i], col))
  {
    if rows != [] {
      var n := |rows| - 1;
      ColumnValuesEmpty(rows[..n], col);
      assert forall i :: 0 <= i < n ==> rows[..n][i] == rows[i];
    }
  }

  /** All six field updates of one row. */
  function AbsorbRow(agg: AggregatedComparison, row: ComparisonRow): AggregatedComparison {
    AggregatedComparison(
      Absorb(agg.similarities, row.similarities), Absorb(agg.differences, row.differences),
      Absorb(agg.uniquePmbok, row.uniquePmbok), Absorb(agg.uniquePrince2, row.uniquePrince2),
      Absorb(agg.uniqueIso21500, row.uniqueIso21500), Absorb(agg.uniqueIso21502, row.uniqueIso21502))
  }

  lemma AbsorbRowField(agg: AggregatedComparison, row: ComparisonRow, col: Column)
    ensures FieldOf(AbsorbRow(agg, row), col) == Absorb(FieldOf(agg, col), CellOf(row, col))
  {
  }

  /** Absorbing the last row's cell into the join of the earlier values joins one more value. */
  lemma AbsorbJoin(rows: seq<ComparisonRow>, col: Column)
    requires rows != []
    ensures var n := |rows| - 1;
      Join(ColumnValues(rows, col), Separator)
        == Absorb(Join(ColumnValues(rows[..n], col), Separator), CellOf(rows[n], col))
  {
    var n := |rows| - 1;
    var vs := ColumnValues(rows[..n], col);
    JoinEmpty(vs, Separator);
    var cell := CellOf(rows[n], col);
    assert ColumnValues(rows, col) == vs + (if HasContent(cell) then [Trim(cell.value)] else []);
    if HasContent(cell) {
      JoinAppend(vs, Trim(cell.value), Separator);
    } else {
      assert vs + [] == vs;
    }
  }

  /**
   * The loop over comparisons.csv rows: afterwards each field is the
   * '\n\n'-join, in row order, of the trimmed values its column had.
   */
  method AggregateComparisons(rows: seq<ComparisonRow>) returns (agg: AggregatedComparison)
    ensures forall col :: FieldOf(agg, col) == Join(ColumnValues(rows, col), Separator)
  {
    agg := AggregatedComparison("", "", "", "", "", "");
    var i := 0;
    while i < |rows|
      invariant i <= |rows|
      invariant forall col :: FieldOf(agg, col) == Join(ColumnValues(rows[..i], col), Separator)
    {
      var data := rows[i];
      ghost var before := agg;
      agg := agg.(similarities := Absorb(agg.similarities, data.similarities));
      agg := agg.(differences := Absorb(agg.differences, data.differences));
      agg := agg.(uniquePmbok := Absorb(agg.uniquePmbok, data.uniquePmbok));
      agg := agg.(uniquePrince2 := Absorb(agg.uniquePrince2, data.uniquePrince2));
      agg := agg.(uniqueIso21500 := Absorb(agg.uniqueIso21500, data.uniqueIso21500));
      agg := agg.(uniqueIso21502 := Absorb(agg.uniqueIso21502, data.uniqueIso21502));
      assert agg == AbsorbRow(before, data);
      assert rows[..i + 1][..i] == rows[..i];
      forall col
        ensures FieldOf(agg, col) == Join(ColumnValues(rows[..i + 1], col), Separator)
      {
        AbsorbJoin(rows[..i + 1], col);
        AbsorbRowField(before, data, col);
      }
      i := i + 1;
    }
    assert rows[..i] == rows;
  }
}
