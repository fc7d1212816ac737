/**
 * The browser client `PMStandardsApp` (public/js/app.js): the records it
 * loads, the inverted index it builds over them, the ranked search it runs
 * on that index, the fuzzy topic resolver and the per-framework counts.
 */
module App {
  import opened Wrappers
  import opened Text
  import opened Seqs
  import opened SearchIndex
  import opened Ranking
  import opened Topics
  import opened ComparisonView

  /**
   * The tally `searchStandards` should hold in `results` after visiting the
   * entries `e`: one key per id met, whose hit is the first record met with
   * that id, scored by how often the id was met.
   */
  ghost function TallyMap(e: seq<Standard>): map<Option<int>, Hit> {
    map id | id in IdsOf(e) :: Hit(e[FirstIndex(IdsOf(e), id)], CountOf(IdsOf(e), id))
  }

  /** The tally after visiting `e`, with its keys in insertion order: the distinct ids of `e`. */
  ghost predicate TallyHolds(e: seq<Standard>, resultIds: seq<Option<int>>, results: map<Option<int>, Hit>) {
    resultIds == Dedup(IdsOf(e)) && results == TallyMap(e)
  }

  /** A tally of nothing is empty. */
  lemma TallyEmpty()
    ensures TallyHolds([], [], map[])
  {
    assert IdsOf([]) == [];
  }

  /** The tally read out in insertion order is `Tally(e)`. */
  lemma TallyValues(e: seq<Standard>, resultIds: seq<Option<int>>, results: map<Option<int>, Hit>)
    requires TallyHolds(e, resultIds, results)
    ensures forall k :: 0 <= k < |resultIds| ==> resultIds[k] in results
    ensures Tally(e) == seq(|resultIds|, k requires 0 <= k < |resultIds| && resultIds[k] in results => results[resultIds[k]])
  {
    DedupSpec(IdsOf(e));
  }

  /** One more entry met: its id is added at the end if new, and its hit scores one more point. */
  lemma TallyAdd(e: seq<Standard>, s: Standard, resultIds: seq<Option<int>>, results: map<Option<int>, Hit>,
                 resultIds': seq<Option<int>>, results': map<Option<int>, Hit>)
    requires TallyHolds(e, resultIds, results)
    requires resultIds' == if s.id in results then resultIds else resultIds + [s.id]
    requires results' == results[s.id := Hit(if s.id in results then results[s.id].record else s,
                                             (if s.id in results then results[s.id].relevanceScore else 0) + 1)]
    ensures TallyHolds(e + [s], resultIds', results')
  {
    TallyStep(e, s);
    DedupSpec(IdsOf(e));
    TallyAddMap(e, s, results, results');
  }

  /** The map half of `TallyAdd`. */
  lemma TallyAddMap(e: seq<Standard>, s: Standard, results: map<Option<int>, Hit>, results': map<Option<int>, Hit>)
    requires results == TallyMap(e)
    requires results' == results[s.id := Hit(if s.id in results then results[s.id].record else s,
                                             (if s.id in results then results[s.id].relevanceScore else 0) + 1)]
    ensures results' == TallyMap(e + [s])
  {
    TallyKeys(e, s);
    forall id | id in results'
      ensures id in TallyMap(e + [s]) && results'[id] == TallyMap(e + [s])[id]
    {
      TallyAddValue(e, s, results, results', id);
    }
  }

  /** `TallyAddMap` at one id. */
  lemma TallyAddValue(e: seq<Standard>, s: Standard, results: map<Option<int>, Hit>, results': map<Option<int>, Hit>, id: Option<int>)
    requires results == TallyMap(e)
    requires results' == results[s.id := Hit(if s.id in results then results[s.id].record else s,
                                             (if s.id in results then results[s.id].relevanceScore else 0) + 1)]
    requires id in results'
    ensures id in TallyMap(e + [s]) && results'[id] == TallyMap(e + [s])[id]
  {
    if id in IdsOf(e) {
      TallyAddKnown(e, s, id);
    } else {
      TallyAddNew(e, s);
    }
  }

  /** The ids tallied after one more entry are those before and its id. */
  lemma TallyKeys(e: seq<Standard>, s: Standard)
    ensures forall id :: id in TallyMap(e + [s]) <==> id in TallyMap(e) || id == s.id
  {
    TallyStep(e, s);
  }

  /** A known id keeps its first record and gains a point when it is the id met. */
  lemma TallyAddKnown(e: seq<Standard>, s: Standard, id: Option<int>)
    requires id in IdsOf(e)
    ensures id in TallyMap(e + [s]) && id in TallyMap(e)
    ensures TallyMap(e + [s])[id]
      == Hit(TallyMap(e)[id].record, TallyMap(e)[id].relevanceScore + if id == s.id then 1 else 0)
  {
    var ids, ids' := IdsOf(e), IdsOf(e + [s]);
    TallyStepAt(e, s, id);
    var f := FirstIndex(ids, id);
    assert (e + [s])[f] == e[f];
    assert TallyMap(e)[id] == Hit(e[f], CountOf(ids, id));
    assert TallyMap(e + [s])[id] == Hit((e + [s])[f], CountOf(ids', id));
  }

  /** A new id starts at the record met, with one point. */
  lemma TallyAddNew(e: seq<Standard>, s: Standard)
    requires s.id !in IdsOf(e)
    ensures s.id in TallyMap(e + [s]) && TallyMap(e + [s])[s.id] == Hit(s, 1)
  {
    var ids, ids' := IdsOf(e), IdsOf(e + [s]);
    TallyStepAt(e, s, s.id);
    CountOfPositive(ids, s.id);
    assert (e + [s])[|e|] == s;
    assert TallyMap(e + [s])[s.id] == Hit((e + [s])[|e|], CountOf(ids', s.id));
  }

  /** `standards.forEach(standard => ...)` inside `searchStandards`: one entry met. */
  method Visit(s: Standard, resultIds: seq<Option<int>>, results: map<Option<int>, Hit>, ghost e: seq<Standard>)
    returns (resultIds': seq<Option<int>>, results': map<Option<int>, Hit>)
    requires TallyHolds(e, resultIds, results)
    ensures TallyHolds(e + [s], resultIds', results')
  {
    resultIds', results' := resultIds, results;
    if s.id !in results' {
      results' := results'[s.id := Hit(s, 0)];
      resultIds' := resultIds' + [s.id];
    }
    var h := results'[s.id];
    results' := results'[s.id := h.(relevanceScore := h.relevanceScore + 1)];
    TallyAdd(e, s, resultIds, results, resultIds', results');
  }

  /** `standards.forEach` over one bucket: each of its records met in turn. */
  method VisitBucket(bucket: seq<Standard>, resultIds: seq<Option<int>>, results: map<Option<int>, Hit>, ghost e: seq<Standard>)
    returns (resultIds': seq<Option<int>>, results': map<Option<int>, Hit>)
    requires TallyHolds(e, resultIds, results)
    ensures TallyHolds(e + bucket, resultIds', results')
  {
    resultIds', results' := resultIds, results;
    ghost var met := e;
    var k := 0;
    while k < |bucket|
      invariant 0 <= k <= |bucket| && met == e + bucket[..k]
      invariant TallyHolds(met, resultIds', results')
    {
      resultIds', results' := Visit(bucket[k], resultIds', results', met);
      met := met + [bucket[k]];
      k := k + 1;
      assert bucket[..k] == bucket[..k - 1] + [bucket[k - 1]];
    }
    assert bucket[..k] == bucket;
  }

  /** One `(standards, indexWord)` entry of `searchIndex.forEach`: its bucket is met only when the key contains the query word. */
  method VisitKey(indexWord: string, bucket: seq<Standard>, word: string,
                  resultIds: seq<Option<int>>, results: map<Option<int>, Hit>, ghost e: seq<Standard>)
    returns (resultIds': seq<Option<int>>, results': map<Option<int>, Hit>)
    requires TallyHolds(e, resultIds, results)
    ensures TallyHolds(e + (if Contains(indexWord, word) then bucket else []), resultIds', results')
  {
    if Contains(indexWord, word) {
      resultIds', results' := VisitBucket(bucket, resultIds, results, e);
    } else {
      resultIds', results' := resultIds, results;
      assert e + [] == e;
    }
  }

  /** The `searchIndex.forEach` pass of one query word longer than 2 characters, over the keys `keys` of `index` in `Map` order. */
  method VisitKeys(keys: seq<string>, index: map<string, seq<Standard>>, word: string,
                   resultIds: seq<Option<int>>, results: map<Option<int>, Hit>, ghost e: seq<Standard>)
    returns (resultIds': seq<Option<int>>, results': map<Option<int>, Hit>)
    requires KeysIn(keys, index)
    requires TallyHolds(e, resultIds, results)
    ensures TallyHolds(e + KeyEncounters(keys, index, word), resultIds', results')
  {
    resultIds', results' := resultIds, results;
    ghost var met := e;
    var j := 0;
    assert keys[..0] == [] && KeyEncounters([], index, word) == [];
    while j < |keys|
      invariant 0 <= j <= |keys| && KeysIn(keys[..j], index)
      invariant met == e + KeyEncounters(keys[..j], index, word)
      invariant TallyHolds(met, resultIds', results')
    {
      KeyEncountersPrefix(keys, index, word, j);
      ghost var visited := if Contains(keys[j], word) then index[keys[j]] else [];
      resultIds', results' := VisitKey(keys[j], index[keys[j]], word, resultIds', results', met);
      met := met + visited;
      assert met == e + (KeyEncounters(keys[..j], index, word) + visited);
      j := j + 1;
    }
    assert keys[..j] == keys;
  }

  /** `buildSearchIndex` once every record is walked: the `Map` holds the index of the pushes `ps`. */
  ghost predicate IndexOf(ps: seq<Posting>, indexWords: seq<string>, searchIndex: map<string, seq<Standard>>) {
    && indexWords == Keys(ps)
    && (forall w :: w in searchIndex <==> w in Keys(ps))
    && (forall w :: w in searchIndex ==> searchIndex[w] == Bucket(ps, w))
  }

  /** An index of some pushes has exactly its listed keys, each listed once. */
  lemma IndexOfIsWellFormed(ps: seq<Posting>, indexWords: seq<string>, searchIndex: map<string, seq<Standard>>)
    requires IndexOf(ps, indexWords, searchIndex)
    ensures KeysIn(indexWords, searchIndex) && Distinct(indexWords)
    ensures forall w :: w in searchIndex <==> w in indexWords
    ensures searchIndex == Index(ps)
  {
    DedupSpec(WordsOf(ps));
  }

  /** One more push: a new word gets an empty bucket at the end of the key order, then the record joins its bucket. */
  lemma IndexPush(ps: seq<Posting>, p: Posting, indexWords: seq<string>, searchIndex: map<string, seq<Standard>>)
    requires IndexOf(ps, indexWords, searchIndex)
    ensures var seen := p.word in searchIndex;
      IndexOf(ps + [p],
        if seen then indexWords else indexWords + [p.word],
        searchIndex[p.word := (if seen then searchIndex[p.word] else []) + [p.record]])
  {
    IndexStep(ps, p);
    KeyIffBucket(ps, p.word);
  }

  /** The pushes of the first `n + 1` records are those of the first `n` and then those of record `n`. */
  lemma PostingsSnoc(data: seq<Standard>, n: nat)
    requires n < |data|
    ensures Postings(data[..n + 1]) == Postings(data[..n]) + PostingsOf(Words(data[n]), data[n])
  {
    assert data[..n + 1][..n] == data[..n];
  }

  /** The pushes of the first `m + 1` words are those of the first `m` and then that of word `m` if it is longer than 2 characters. */
  lemma PostingsOfSnoc(words: seq<string>, m: nat, s: Standard)
    requires m < |words|
    ensures PostingsOf(words[..m + 1], s) == PostingsOf(words[..m], s) + (if |words[m]| > 2 then [Posting(words[m], s)] else [])
  {
    assert words[..m + 1][..m] == words[..m];
  }

  /** `new Set(data.map(s => s.topic))` spread into an array: each topic once, in order of first appearance. */
  function TopicsOf(data: seq<Standard>): (list: seq<string>)
    ensures Distinct(list)
    ensures forall t :: t in list <==> exists s :: s in data && s.topic == t
  {
    var topics := seq(|data|, i requires 0 <= i < |data| => data[i].topic);
    DedupSpec(topics);
    assert forall i :: 0 <= i < |data| ==> topics[i] == data[i].topic;
    Dedup(topics)
  }

  /**
   * What `standardsResponse.json()` yields: the records, or the `{ error }`
   * object of a 404 or 500 answer, which `fetch` does not reject.
   */
  datatype StandardsBody = Records(records: seq<Standard>) | ErrorObject(error: string)

  class PMStandardsApp {
    /** `this.currentData.standards` while it is an array. */
    var standards: seq<Standard>
    /**
     * `Some(error)` while `this.currentData.standards` holds an `{ error }`
     * object instead of an array; `standards` is then empty.
     */
    var standardsError: Option<string>
    /** The keys of `this.searchIndex` in insertion order. */
    var indexWords: seq<string>
    /** `this.searchIndex` */
    var searchIndex: map<string, seq<Standard>>

    /** `indexWords` lists the keys of `searchIndex`, each once. */
    ghost predicate Valid()
      reads this
    {
      && KeysIn(indexWords, searchIndex)
      && Distinct(indexWords)
      && (forall w :: w in searchIndex ==> w in indexWords)
    }

    /** The index was built from the records now held. */
    ghost predicate Indexed()
      reads this
    {
      indexWords == Keys(Postings(standards)) && searchIndex == Index(Postings(standards))
    }

    /** The state before `init` completes: no records, an empty `Map`. */
    constructor()
      ensures standards == [] && standardsError == None && indexWords == [] && searchIndex == map[]
      ensures Valid() && Indexed()
    {
      standards := [];
      standardsError := None;
      indexWords := [];
      searchIndex := map[];
      new;
      assert WordsOf([]) == [];
    }

    /**
     * `loadData`: the body fetched from `/api/standards` replaces the old
     * records, whether it is the records or an error answer's `{ error }`
     * object. `None` means the assignment was never reached: either fetch
     * rejected, or the standards JSON parse did; then nothing changes.
     */
    method LoadData(fetched: Option<StandardsBody>)
      modifies this
      ensures fetched.None? ==> standards == old(standards) && standardsError == old(standardsError)
      ensures fetched.Some? && fetched.value.Records? ==> standards == fetched.value.records && standardsError == None
      ensures fetched.Some? && fetched.value.ErrorObject? ==> standards == [] && standardsError == Some(fetched.value.error)
      ensures indexWords == old(indexWords) && searchIndex == old(searchIndex)
    {
      match fetched {
        case None =>
        case Some(Records(records)) =>
          standards, standardsError := records, None;
        case Some(ErrorObject(error)) =>
          standards, standardsError := [], Some(error);
      }
    }

    /** `buildSearchIndex`: every word longer than 2 characters of each record's text, in order, gets the record pushed onto its bucket. */
    method BuildSearchIndex()
      modifies this
      ensures standards == old(standards) && standardsError == old(standardsError)
      ensures standardsError.Some? ==> indexWords == [] && searchIndex == map[]
      ensures standardsError.None? ==> indexWords == Keys(Postings(standards)) && searchIndex == Index(Postings(standards))
      ensures Valid()
    {
      searchIndex := map[];
      indexWords := [];
      if standardsError.Some? {
        // an `{ error }` object has no `forEach`: the call throws after the clear
        return;
      }
      ghost var ps: seq<Posting> := [];
      assert WordsOf([]) == [];
      var n := 0;
      while n < |standards|
        invariant 0 <= n <= |standards| && standards == old(standards) && standardsError == old(standardsError)
        invariant ps == Postings(standards[..n])
        invariant IndexOf(ps, indexWords, searchIndex)
      {
        IndexRecord(standards[n], ps);
        PostingsSnoc(standards, n);
        ps := ps + PostingsOf(Words(standards[n]), standards[n]);
        n := n + 1;
      }
      assert standards[..n] == standards;
      IndexOfIsWellFormed(ps, indexWords, searchIndex);
    }

    /** The `words.forEach` pass of `buildSearchIndex` over one record. */
    method IndexRecord(standard: Standard, ghost ps: seq<Posting>)
      modifies this
      requires IndexOf(ps, indexWords, searchIndex)
      ensures standards == old(standards) && standardsError == old(standardsError)
      ensures IndexOf(ps + PostingsOf(Words(standard), standard), indexWords, searchIndex)
    {
      var words := SplitWs(Lower(standard.standard + " " + standard.topic + " " + standard.excerpt));
      assert words == Words(standard);
      ghost var qs := ps;
      var m := 0;
      while m < |words|
        invariant 0 <= m <= |words| && standards == old(standards) && standardsError == old(standardsError)
        invariant qs == ps + PostingsOf(words[..m], standard)
        invariant IndexOf(qs, indexWords, searchIndex)
      {
        var word := words[m];
        PostingsOfSnoc(words, m, standard);
        if |word| > 2 {
          PushWord(word, standard, qs);
          qs := qs + [Posting(word, standard)];
        }
        m := m + 1;
      }
      assert words[..m] == words;
    }

    /** `if (!searchIndex.has(word)) searchIndex.set(word, []); searchIndex.get(word).push(standard)` */
    method PushWord(word: string, standard: Standard, ghost ps: seq<Posting>)
      modifies this
      requires IndexOf(ps, indexWords, searchIndex)
      ensures standards == old(standards) && standardsError == old(standardsError)
      ensures IndexOf(ps + [Posting(word, standard)], indexWords, searchIndex)
    {
      IndexPush(ps, Posting(word, standard), indexWords, searchIndex);
      if !(word in searchIndex) {
        searchIndex := searchIndex[word := []];
        indexWords := indexWords + [word];
      }
      searchIndex := searchIndex[word := searchIndex[word] + [standard]];
    }

    /** `init`: load the records, then index them. */
    method Init(fetched: Option<StandardsBody>)
      modifies this
      ensures fetched.None? ==> standards == old(standards) && standardsError == old(standardsError)
      ensures fetched.Some? && fetched.value.Records? ==> standards == fetched.value.records && standardsError == None
      ensures fetched.Some? && fetched.value.ErrorObject? ==> standards == [] && standardsError == Some(fetched.value.error)
      ensures standardsError.Some? ==> indexWords == [] && searchIndex == map[]
      ensures standardsError.None? ==> Indexed()
      ensures Valid()
    {
      LoadData(fetched);
      BuildSearchIndex();
    }

    /**
     * `searchStandards(query)`: the lower-cased query split on white space;
     * each word longer than 2 characters visits the bucket of every key
     * containing it; the records met are tallied by `id`, sorted by score
     * (highest first, ties in tally order) and cut to 10.
     */
    method SearchStandards(query: string) returns (top: seq<Hit>)
      requires Valid()
      ensures top == Ranked(Encounters(SplitWs(Lower(query)), indexWords, searchIndex))
      ensures Indexed() ==> top == Ranked(Searched(standards, SplitWs(Lower(query))))
    {
      var queryWords := SplitWs(Lower(query));
      var resultIds: seq<Option<int>> := [];
      var results: map<Option<int>, Hit> := map[];
      ghost var e: seq<Standard> := [];
      TallyEmpty();
      var i := 0;
      while i < |queryWords|
        invariant 0 <= i <= |queryWords|
        invariant e == Encounters(queryWords[..i], indexWords, searchIndex)
        invariant TallyHolds(e, resultIds, results)
      {
        var word := queryWords[i];
        assert queryWords[..i + 1][..i] == queryWords[..i];
        if |word| > 2 {
          resultIds, results := VisitKeys(indexWords, searchIndex, word, resultIds, results, e);
          e := e + KeyEncounters(indexWords, searchIndex, word);
        }
        i := i + 1;
      }
      assert queryWords[..i] == queryWords;
      TallyValues(e, resultIds, results);
      var values := seq(|resultIds|, k requires 0 <= k < |resultIds| && resultIds[k] in results => results[resultIds[k]]);
      top := Top(SortDesc(values));
    }

    /**
     * `performSearch(query)`: a query shorter than 2 characters hides the results;
     * otherwise the ranked hits are what it passes to `displaySearchResults`.
     */
    method PerformSearch(query: string) returns (shown: Option<seq<Hit>>)
      requires Valid()
      ensures |query| < 2 <==> shown.None?
      ensures shown.Some? ==> shown.value == Ranked(Encounters(SplitWs(Lower(query)), indexWords, searchIndex))
    {
      if |query| < 2 {
        return None;
      }
      var results := SearchStandards(query);
      shown := Some(results);
    }

    /**
     * `resolveTopic(keyword, topicsList)`: the resolver over the given list,
     * or over the distinct topics of the loaded records when none is given.
     * `None` is the TypeError of `.map` on an `{ error }` object.
     */
    function ResolveTopic(keyword: string, topicsList: Option<seq<string>>): (topic: Option<string>)
      reads this
      ensures topic.None? <==> keyword != "" && topicsList.None? && standardsError.Some?
      ensures keyword == "" ==> topic == Some("")
      ensures topic.Some? && topic.value != "" ==> Contains(Norm(topic.value), Norm(keyword))
      ensures topic.Some? && topic.value != "" && topicsList.Some? ==> topic.value in topicsList.value
      ensures topic.Some? && topic.value != "" && topicsList.None? ==> exists s :: s in standards && s.topic == topic.value
    {
      if keyword == "" then Some("")
      else if topicsList.None? && standardsError.Some? then None
      else
        var list := if topicsList.Some? then topicsList.value else TopicsOf(standards);
        Some(ResolveIn(keyword, list))
    }

    /**
     * `getStandardsByFramework()`: the number of records of each framework
     * name. `None` is the TypeError of `.forEach` on an `{ error }` object.
     */
    method GetStandardsByFramework() returns (counts: Option<map<string, nat>>)
      ensures counts.None? <==> standardsError.Some?
      ensures counts.Some? ==> forall name :: name in counts.value <==> name in Names(standards)
      ensures counts.Some? ==> forall name :: name in counts.value ==> counts.value[name] == |ByStandard(standards, name)|
    {
      if standardsError.Some? {
        return None;
      }
      var frameworks := map[];
      var i := 0;
      while i < |standards|
        invariant 0 <= i <= |standards|
        invariant forall name :: name in frameworks <==> name in Names(standards[..i])
        invariant forall name :: name in frameworks ==> frameworks[name] == |ByStandard(standards[..i], name)|
      {
        var standard := standards[i];
        var count := if standard.standard in frameworks then frameworks[standard.standard] else 0;
        frameworks := frameworks[standard.standard := count + 1];
        assert standards[..i + 1] == standards[..i] + [standard];
        NamesSnoc(standards[..i], standard);
        forall name
          ensures |ByStandard(standards[..i + 1], name)| == |ByStandard(standards[..i], name)| + (if name == standard.standard then 1 else 0)
        {
          ByStandardSnoc(standards[..i], standard, name);
        }
        ByStandardEmpty(standards[..i], standard.standard);
        i := i + 1;
      }
      assert standards[..i] == standards;
      counts := Some(frameworks);
    }
  }

  // ---------------------------------------------------------------------------
  // What a search over an index built from the records finds

  /** Record `x` has a word, longer than 2 characters, containing the query word `q`. */
  predicate MatchesWord(x: Standard, q: string) {
    exists j :: 0 <= j < |Words(x)| && |Words(x)[j]| > 2 && Contains(Words(x)[j], q)
  }

  /** The bucket of a key of the index built from `data` holds exactly the records of `data` having that word. */
  lemma IndexBucketMembers(data: seq<Standard>, k: string, x: Standard)
    requires k in Index(Postings(data))
    ensures x in Index(Postings(data))[k] <==> x in data && |k| > 2 && k in Words(x)
  {
    BucketsInDataOrder(data, k);
    BucketByRecordMembers(data, k, x);
  }

  /** The entries met by a search for `queryWords` over the index built from `data`. */
  function Searched(data: seq<Standard>, queryWords: seq<string>): seq<Standard> {
    Encounters(queryWords, Keys(Postings(data)), Index(Postings(data)))
  }

  /**
   * Over an index built from `data`, a query word `q` longer than 2
   * characters meets a record exactly when it is a record of `data` with a
   * word longer than 2 characters containing `q`.
   */
  lemma KeyEncountersFind(data: seq<Standard>, q: string, x: Standard)
    requires |q| > 2
    ensures x in KeyEncounters(Keys(Postings(data)), Index(Postings(data)), q) <==> x in data && MatchesWord(x, q)
  {
    KeyEncountersMembers(Keys(Postings(data)), Index(Postings(data)), q, x);
    if x in KeyEncounters(Keys(Postings(data)), Index(Postings(data)), q) {
      var i :| 0 <= i < |Keys(Postings(data))| && KeyHolds(Index(Postings(data)), q, x, Keys(Postings(data))[i]);
      KeyHoldsMatches(data, q, x, Keys(Postings(data))[i]);
    }
    if x in data && MatchesWord(x, q) {
      MatchesKeyHolds(data, q, x);
    }
  }

  /** A record in the bucket of a key containing `q` is a record of `data` with a word containing `q`. */
  lemma KeyHoldsMatches(data: seq<Standard>, q: string, x: Standard, k: string)
    requires KeyHolds(Index(Postings(data)), q, x, k)
    ensures x in data && MatchesWord(x, q)
  {
    IndexBucketMembers(data, k, x);
    var j :| 0 <= j < |Words(x)| && Words(x)[j] == k;
  }

  /** A record of `data` with a word containing `q` is in the bucket of that word, a key containing `q`. */
  lemma MatchesKeyHolds(data: seq<Standard>, q: string, x: Standard)
    requires x in data && MatchesWord(x, q)
    ensures exists i :: 0 <= i < |Keys(Postings(data))| && KeyHolds(Index(Postings(data)), q, x, Keys(Postings(data))[i])
  {
    var ps := Postings(data);
    var j :| 0 <= j < |Words(x)| && |Words(x)[j]| > 2 && Contains(Words(x)[j], q);
    var w := Words(x)[j];
    BucketsInDataOrder(data, w);
    BucketByRecordMembers(data, w, x);
    KeyIffBucket(ps, w);
    var i :| 0 <= i < |Keys(ps)| && Keys(ps)[i] == w;
    IndexBucketMembers(data, w, x);
    assert KeyHolds(Index(ps), q, x, Keys(ps)[i]);
  }

  /** Record `x` has a word, longer than 2 characters, containing some query word longer than 2 characters. */
  predicate Matches(x: Standard, queryWords: seq<string>) {
    exists i :: 0 <= i < |queryWords| && |queryWords[i]| > 2 && MatchesWord(x, queryWords[i])
  }

  /**
   * Over an index built from `data`, a search meets a record exactly when it
   * is a record of `data` matching the query words.
   */
  lemma EncountersFind(data: seq<Standard>, queryWords: seq<string>, x: Standard)
    ensures x in Searched(data, queryWords) <==> x in data && Matches(x, queryWords)
  {
    var ps := Postings(data);
    var keys, index := Keys(ps), Index(ps);
    EncountersMembers(queryWords, keys, index, x);
    forall i | 0 <= i < |queryWords| && |queryWords[i]| > 2
      ensures Visits(keys, index, queryWords[i], x) <==> x in data && MatchesWord(x, queryWords[i])
    {
      KeyEncountersFind(data, queryWords[i], x);
    }
  }

  /**
   * Every hit of a search over an index built from `data` is a record of
   * `data` matching the query, scored by how many times the search met its
   * `id`.
   */
  lemma SearchHitsMatch(data: seq<Standard>, queryWords: seq<string>)
    ensures forall k :: 0 <= k < |Ranked(Searched(data, queryWords))| ==>
      var h := Ranked(Searched(data, queryWords))[k];
      && h.record in data
      && Matches(h.record, queryWords)
      && h.relevanceScore == CountOf(IdsOf(Searched(data, queryWords)), h.record.id)
  {
    var e := Searched(data, queryWords);
    RankedFacts(e);
    forall k | 0 <= k < |Ranked(e)|
      ensures Ranked(e)[k].record in data && Matches(Ranked(e)[k].record, queryWords)
    {
      InTally(e, Ranked(e)[k]);
      EncountersFind(data, queryWords, Ranked(e)[k].record);
    }
  }

  /**
   * Every record of `data` matching the query has its `id` among the hits
   * tallied, before the cut to 10.
   */
  lemma SearchCoversMatches(data: seq<Standard>, queryWords: seq<string>, x: Standard)
    requires x in data && Matches(x, queryWords)
    ensures exists k :: 0 <= k < |Tally(Searched(data, queryWords))| && Tally(Searched(data, queryWords))[k].record.id == x.id
  {
    EncountersFind(data, queryWords, x);
    TallyCovers(Searched(data, queryWords), x);
  }
}
