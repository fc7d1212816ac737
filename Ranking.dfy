/**
 * What `searchStandards` computes (public/js/app.js:124-149), stated without
 * its loops: the bucket entries the triple loop visits, the tally keyed on
 * `id` that `results` accumulates, the stable descending sort of
 * `Array.prototype.sort`, and `.slice(0, 10)`.
 */
module Ranking {
  import opened Wrappers
  import opened Text
  import opened Seqs
  import opened SearchIndex

  /** `{...standard, relevanceScore}` */
  datatype Hit = Hit(record: Standard, relevanceScore: nat)

  /** At most this many results are returned. */
  const MaxResults := 10

  predicate KeysIn(keys: seq<string>, index: map<string, seq<Standard>>) {
    forall i :: 0 <= i < |keys| ==> keys[i] in index
  }

  /** For one query word: the bucket of every key containing it, keys in `Map` order. */
  function KeyEncounters(keys: seq<string>, index: map<string, seq<Standard>>, word: string): seq<Standard>
    requires KeysIn(keys, index)
  {
    if keys == [] then []
    else
      var k := keys[|keys| - 1];
      KeyEncounters(keys[..|keys| - 1], index, word) + (if Contains(k, word) then index[k] else [])
  }

  /** Every bucket entry the search visits, in visiting order: query words of 2 characters or fewer visit nothing. */
  function Encounters(queryWords: seq<string>, keys: seq<string>, index: map<string, seq<Standard>>): seq<Standard>
    requires KeysIn(keys, index)
  {
    if queryWords == [] then []
    else
      var w := queryWords[|queryWords| - 1];
      Encounters(queryWords[..|queryWords| - 1], keys, index) + (if |w| > 2 then KeyEncounters(keys, index, w) else [])
  }

  function IdsOf(e: seq<Standard>): seq<Option<int>> {
    seq(|e|, i requires 0 <= i < |e| => e[i].id)
  }

  /**
   * `Array.from(results.values())` after the encounters `e`: one hit per
   * distinct `id`, in order of first encounter, carrying the first record
   * met with that `id` and one point per encounter of it.
   */
  function Tally(e: seq<Standard>): (hits: seq<Hit>)
    ensures |hits| == |Dedup(IdsOf(e))|
    ensures forall k :: 0 <= k < |hits| ==> hits[k].record in e && hits[k].record.id == Dedup(IdsOf(e))[k]
  {
    var ids := IdsOf(e);
    var d := Dedup(ids);
    DedupSpec(ids);
    seq(|d|, k requires 0 <= k < |d| => Hit(e[FirstIndex(ids, d[k])], CountOf(ids, d[k])))
  }

  predicate SortedDesc(hits: seq<Hit>) {
    forall i, j :: 0 <= i < j < |hits| ==> hits[i].relevanceScore >= hits[j].relevanceScore
  }

  /** Places `x` before the first hit that does not outscore it. */
  function Insert(x: Hit, s: seq<Hit>): seq<Hit> {
    if s == [] || s[0].relevanceScore <= x.relevanceScore then [x] + s
    else [s[0]] + Insert(x, s[1..])
  }

  /** `hits.sort((a, b) => b.relevanceScore - a.relevanceScore)`, a stable sort. */
  function SortDesc(hits: seq<Hit>): (sorted: seq<Hit>)
    ensures SortedDesc(sorted)
    ensures multiset(sorted) == multiset(hits)
  {
    if hits == [] then []
    else
      var rest := SortDesc(hits[1..]);
      InsertSorted(hits[0], rest);
      InsertPermutes(hits[0], rest);
      assert hits == [hits[0]] + hits[1..];
      Insert(hits[0], rest)
  }

  /** `.slice(0, 10)`: a prefix of at most 10 hits, the whole list when it is short. */
  function Top(hits: seq<Hit>): (top: seq<Hit>)
    ensures |top| <= MaxResults && top <= hits
    ensures |hits| <= MaxResults ==> top == hits
  {
    if |hits| <= MaxResults then hits else hits[..MaxResults]
  }

  /** The result of a search that visited the entries `e`. */
  function Ranked(e: seq<Standard>): seq<Hit> {
    Top(SortDesc(Tally(e)))
  }

  predicate ScoreIs(h: Hit, v: nat) {
    h.relevanceScore == v
  }

  // ---------------------------------------------------------------------------
  // Properties of the tally

  /** One more encounter: how the ids and their order change. */
  lemma TallyStep(e: seq<Standard>, s: Standard)
    ensures IdsOf(e + [s]) == IdsOf(e) + [s.id]
    ensures Dedup(IdsOf(e + [s])) == if s.id in Dedup(IdsOf(e)) then Dedup(IdsOf(e)) else Dedup(IdsOf(e)) + [s.id]
  {
    assert IdsOf(e + [s]) == IdsOf(e) + [s.id];
    assert (IdsOf(e) + [s.id])[..|e|] == IdsOf(e);
  }

  /** One more encounter: how the count and the first position of one id change. */
  lemma TallyStepAt(e: seq<Standard>, s: Standard, id: Option<int>)
    ensures CountOf(IdsOf(e + [s]), id) == CountOf(IdsOf(e), id) + (if id == s.id then 1 else 0)
    ensures id in IdsOf(e) ==> id in IdsOf(e + [s]) && FirstIndex(IdsOf(e + [s]), id) == FirstIndex(IdsOf(e), id)
    ensures id == s.id && id !in IdsOf(e) ==> id in IdsOf(e + [s]) && FirstIndex(IdsOf(e + [s]), id) == |e|
  {
    var ids, ids' := IdsOf(e), IdsOf(e + [s]);
    assert ids' == ids + [s.id];
    assert ids'[..|ids|] == ids;
    if id in ids {
      var f := FirstIndex(ids, id);
      assert ids'[f] == id;
      FirstIndexUnique(ids', id, f);
    } else if id == s.id {
      FirstIndexUnique(ids', s.id, |e|);
    }
  }

  lemma FirstIndexUnique<T>(s: seq<T>, x: T, i: nat)
    requires i < |s| && s[i] == x
    requires forall j :: 0 <= j < i ==> s[j] != x
    ensures FirstIndex(s, x) == i
  {
  }

  /**
   * Each hit's record is the first entry met with its `id`, and its score,
   * at least 1, is the number of entries with that `id`.
   */
  lemma TallyFacts(e: seq<Standard>)
    ensures |Tally(e)| <= |e|
    ensures forall k :: 0 <= k < |Tally(e)| ==>
      && Tally(e)[k].record in e
      && Tally(e)[k].relevanceScore == CountOf(IdsOf(e), Tally(e)[k].record.id) >= 1
      && Tally(e)[k].record.id in IdsOf(e)
      && Tally(e)[k].record == e[FirstIndex(IdsOf(e), Tally(e)[k].record.id)]
  {
    var ids := IdsOf(e);
    var d := Dedup(ids);
    DedupSpec(ids);
    var t := Tally(e);
    forall k | 0 <= k < |t|
      ensures t[k].record.id == d[k] && t[k].relevanceScore == CountOf(ids, d[k]) >= 1
    {
      CountOfPositive(ids, d[k]);
    }
    DistinctLength(d, ids);
  }

  /** Each hit is keyed on a distinct `id`. */
  lemma TallyDistinctIds(e: seq<Standard>)
    ensures forall k, l :: 0 <= k < l < |Tally(e)| ==> Tally(e)[k].record.id != Tally(e)[l].record.id
  {
    DedupSpec(IdsOf(e));
  }

  /** A distinct sequence drawn from `s` is no longer than `s`. */
  lemma {:induction false} DistinctLength<T>(d: seq<T>, s: seq<T>)
    requires Distinct(d)
    requires forall x :: x in d ==> x in s
    ensures |d| <= |s|
  {
    if d != [] {
      var x := d[|d| - 1];
      var i := FirstIndex(s, x);
      var s' := s[..i] + s[i + 1..];
      forall y | y in d[..|d| - 1]
        ensures y in s'
      {
        assert y in d;
        var j :| 0 <= j < |s| && s[j] == y;
        assert j != i;
        if j < i { assert s'[j] == y; } else { assert s'[j - 1] == y; }
      }
      DistinctLength(d[..|d| - 1], s');
    }
  }

  /** Rows without an `id` all share the key `undefined`: every match collapses into a single hit. */
  lemma AbsentIdsCollapse(e: seq<Standard>)
    requires forall j :: 0 <= j < |e| ==> e[j].id.None?
    ensures |Tally(e)| <= 1
  {
    var ids := IdsOf(e);
    var d := Dedup(ids);
    DedupSpec(ids);
    assert |Tally(e)| == |d|;
    forall x | x in d
      ensures x in [None]
    {
      var i :| 0 <= i < |ids| && ids[i] == x;
      assert e[i].id.None?;
    }
    DistinctLength(d, [None]);
  }

  // ---------------------------------------------------------------------------
  // Properties of the sort

  /** Where `Insert` puts `x`: after the hits that outscore it. */
  function InsertPos(x: Hit, s: seq<Hit>): (k: nat)
    ensures k <= |s|
  {
    if s == [] || s[0].relevanceScore <= x.relevanceScore then 0 else 1 + InsertPos(x, s[1..])
  }

  lemma {:induction false} InsertSplit(x: Hit, s: seq<Hit>)
    requires SortedDesc(s)
    ensures var k := InsertPos(x, s);
      && Insert(x, s) == s[..k] + [x] + s[k..]
      && (forall i :: 0 <= i < k ==> s[i].relevanceScore > x.relevanceScore)
      && (forall i :: k <= i < |s| ==> s[i].relevanceScore <= x.relevanceScore)
  {
    if s != [] && s[0].relevanceScore > x.relevanceScore {
      InsertSplit(x, s[1..]);
      var k := InsertPos(x, s[1..]);
      assert s[..k + 1] == [s[0]] + s[1..][..k];
      assert s[k + 1..] == s[1..][k..];
    }
  }

  lemma InsertSorted(x: Hit, s: seq<Hit>)
    requires SortedDesc(s)
    ensures SortedDesc(Insert(x, s))
  {
    InsertSplit(x, s);
    var k := InsertPos(x, s);
    var r := s[..k] + [x] + s[k..];
    assert |r| == |s| + 1;
    forall i, j | 0 <= i < j < |r|
      ensures r[i].relevanceScore >= r[j].relevanceScore
    {
      var si := if i < k then s[i] else if i == k then x else s[i - 1];
      var sj := if j < k then s[j] else if j == k then x else s[j - 1];
      assert r[i] == si && r[j] == sj;
    }
  }

  lemma {:induction false} InsertPermutes(x: Hit, s: seq<Hit>)
    ensures multiset(Insert(x, s)) == multiset(s) + multiset{x}
  {
    if s != [] && s[0].relevanceScore > x.relevanceScore {
      InsertPermutes(x, s[1..]);
      assert s == [s[0]] + s[1..];
    }
  }

  /** Inserting `x` places it ahead of every hit of its own score. */
  lemma {:induction false} InsertFilter(x: Hit, s: seq<Hit>, v: nat)
    ensures FilterBy(Insert(x, s), ScoreIs, v) == (if ScoreIs(x, v) then [x] else []) + FilterBy(s, ScoreIs, v)
  {
    if s == [] || s[0].relevanceScore <= x.relevanceScore {
      FilterByCons(x, s, ScoreIs, v);
    } else {
      InsertFilter(x, s[1..], v);
      FilterByCons(s[0], Insert(x, s[1..]), ScoreIs, v);
      FilterByCons(s[0], s[1..], ScoreIs, v);
      assert s == [s[0]] + s[1..];
    }
  }

  /** The sort is stable: the hits of any one score keep their relative order. */
  lemma {:induction false} SortDescStable(hits: seq<Hit>, v: nat)
    ensures FilterBy(SortDesc(hits), ScoreIs, v) == FilterBy(hits, ScoreIs, v)
  {
    if hits != [] {
      SortDescStable(hits[1..], v);
      InsertFilter(hits[0], SortDesc(hits[1..]), v);
      FilterByCons(hits[0], hits[1..], ScoreIs, v);
      assert hits == [hits[0]] + hits[1..];
    }
  }

  // ---------------------------------------------------------------------------
  // Properties of the search result

  lemma InTally(e: seq<Standard>, h: Hit)
    requires h in Tally(e)
    ensures h.relevanceScore == CountOf(IdsOf(e), h.record.id) >= 1
    ensures h.record in e
  {
    TallyFacts(e);
    var k :| 0 <= k < |Tally(e)| && Tally(e)[k] == h;
  }

  /**
   * At most 10 hits, by non-increasing score, each a hit of the tally, so
   * each scores at least 1: one point per visited entry with its `id`.
   */
  lemma RankedFacts(e: seq<Standard>)
    ensures |Ranked(e)| <= MaxResults
    ensures SortedDesc(Ranked(e))
    ensures forall k :: 0 <= k < |Ranked(e)| ==> Ranked(e)[k] in Tally(e)
    ensures forall k :: 0 <= k < |Ranked(e)| ==>
      Ranked(e)[k].relevanceScore == CountOf(IdsOf(e), Ranked(e)[k].record.id) >= 1
  {
    var t := Tally(e);
    var s := SortDesc(t);
    var r := Ranked(e);
    forall k | 0 <= k < |r|
      ensures r[k] in t && r[k].relevanceScore == CountOf(IdsOf(e), r[k].record.id) >= 1
    {
      assert r[k] == s[k];
      assert s[k] in multiset(s);
      InTally(e, r[k]);
    }
  }

  /**
   * The results are the first hits of the stable sort, which lists the hits of
   * any one score in order of first encounter.
   */
  lemma RankedTiesInEncounterOrder(e: seq<Standard>, v: nat)
    ensures Ranked(e) <= SortDesc(Tally(e))
    ensures FilterBy(SortDesc(Tally(e)), ScoreIs, v) == FilterBy(Tally(e), ScoreIs, v)
  {
    SortDescStable(Tally(e), v);
  }

  lemma {:induction false} ShortWordsVisitNothing(queryWords: seq<string>, keys: seq<string>, index: map<string, seq<Standard>>)
    requires KeysIn(keys, index)
    requires forall k :: 0 <= k < |queryWords| ==> |queryWords[k]| <= 2
    ensures Encounters(queryWords, keys, index) == []
  {
    if queryWords != [] {
      ShortWordsVisitNothing(queryWords[..|queryWords| - 1], keys, index);
    }
  }

  /** A query whose words all have 2 characters or fewer finds nothing. */
  lemma ShortQueryFindsNothing(queryWords: seq<string>, keys: seq<string>, index: map<string, seq<Standard>>)
    requires KeysIn(keys, index)
    requires forall k :: 0 <= k < |queryWords| ==> |queryWords[k]| <= 2
    ensures Ranked(Encounters(queryWords, keys, index)) == []
  {
    ShortWordsVisitNothing(queryWords, keys, index);
    assert IdsOf([]) == [];
  }

  /** Key `k` contains `word` and its bucket holds `x`. */
  predicate KeyHolds(index: map<string, seq<Standard>>, word: string, x: Standard, k: string) {
    k in index && Contains(k, word) && x in index[k]
  }

  /** The entries visited over one more key are those visited before and the bucket of that key, if it contains the word. */
  lemma KeyEncountersSnoc(keys: seq<string>, index: map<string, seq<Standard>>, word: string, x: Standard)
    requires KeysIn(keys, index) && keys != []
    ensures KeysIn(keys[..|keys| - 1], index)
    ensures x in KeyEncounters(keys, index, word) <==>
      x in KeyEncounters(keys[..|keys| - 1], index, word) || KeyHolds(index, word, x, keys[|keys| - 1])
  {
  }

  /** Walking the keys in order: the first `j + 1` keys visit what the first `j` do, then the bucket of key `j` if it contains the word. */
  lemma KeyEncountersPrefix(keys: seq<string>, index: map<string, seq<Standard>>, word: string, j: nat)
    requires KeysIn(keys, index) && j < |keys|
    ensures KeysIn(keys[..j], index) && KeysIn(keys[..j + 1], index)
    ensures KeyEncounters(keys[..j + 1], index, word)
      == KeyEncounters(keys[..j], index, word) + (if Contains(keys[j], word) then index[keys[j]] else [])
  {
    assert keys[..j + 1][..j] == keys[..j];
  }

  /** For one query word, an entry is visited exactly when it is in the bucket of some key containing the word. */
  lemma {:induction false} KeyEncountersMembers(keys: seq<string>, index: map<string, seq<Standard>>, word: string, x: Standard)
    requires KeysIn(keys, index)
    ensures x in KeyEncounters(keys, index, word) <==> exists i :: 0 <= i < |keys| && KeyHolds(index, word, x, keys[i])
  {
    if keys != [] {
      var n := |keys| - 1;
      KeyEncountersSnoc(keys, index, word, x);
      KeyEncountersMembers(keys[..n], index, word, x);
      ExistsSnoc(keys, keys[..n], k => KeyHolds(index, word, x, k),
        x in KeyEncounters(keys[..n], index, word), x in KeyEncounters(keys, index, word));
    }
  }

  /** Query word `w` visits entry `x`. */
  predicate Visits(keys: seq<string>, index: map<string, seq<Standard>>, w: string, x: Standard)
    requires KeysIn(keys, index)
  {
    |w| > 2 && x in KeyEncounters(keys, index, w)
  }

  /** The entries met by one more query word are those met before and those it visits. */
  lemma EncountersSnoc(queryWords: seq<string>, keys: seq<string>, index: map<string, seq<Standard>>, x: Standard)
    requires KeysIn(keys, index) && queryWords != []
    ensures x in Encounters(queryWords, keys, index) <==>
      x in Encounters(queryWords[..|queryWords| - 1], keys, index) || Visits(keys, index, queryWords[|queryWords| - 1], x)
  {
  }

  /** An entry is visited exactly when some query word longer than 2 characters visits it. */
  lemma {:induction false} EncountersMembers(queryWords: seq<string>, keys: seq<string>, index: map<string, seq<Standard>>, x: Standard)
    requires KeysIn(keys, index)
    ensures x in Encounters(queryWords, keys, index) <==>
      exists i :: 0 <= i < |queryWords| && Visits(keys, index, queryWords[i], x)
  {
    if queryWords != [] {
      var n := |queryWords| - 1;
      EncountersMembers(queryWords[..n], keys, index, x);
      EncountersSnoc(queryWords, keys, index, x);
      ExistsSnoc(queryWords, queryWords[..n], w => Visits(keys, index, w, x),
        x in Encounters(queryWords[..n], keys, index), x in Encounters(queryWords, keys, index));
    }
  }

  /** Every entry met has its `id` among the hits. */
  lemma TallyCovers(e: seq<Standard>, x: Standard)
    requires x in e
    ensures exists k :: 0 <= k < |Tally(e)| && Tally(e)[k].record.id == x.id
  {
    var ids := IdsOf(e);
    DedupSpec(ids);
    var j :| 0 <= j < |e| && e[j] == x;
    assert ids[j] == x.id && x.id in ids;
    assert x.id in Dedup(ids);
    var k :| 0 <= k < |Dedup(ids)| && Dedup(ids)[k] == x.id;
    assert Tally(e)[k].record.id == x.id;
  }
}
