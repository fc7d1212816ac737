/**
 * What the client's inverted index holds (public/js/app.js:33-53), stated
 * without the loop: the sequence of pushes `buildSearchIndex` makes, the key
 * order of the `Map` they fill, and each key's bucket.
 */
module SearchIndex {
  import opened Wrappers
  import opened Text
  import opened Seqs

  /**
   * A record of `currentData.standards` as the client holds it. Rows served
   * by the database carry an `id`; rows served by the serverless API do not.
   */
  datatype Standard = Standard(id: Option<int>, topic: string, standard: string, page: string, excerpt: string)

  /** `[standard.standard, standard.topic, standard.excerpt].join(' ').toLowerCase()` */
  function SearchableText(s: Standard): string {
    Lower(s.standard + " " + s.topic + " " + s.excerpt)
  }

  /** `searchableText.split(/\s+/)` */
  function Words(s: Standard): seq<string> {
    SplitWs(SearchableText(s))
  }

  /** One `push`: the bucket of `word` receives `record`. */
  datatype Posting = Posting(word: string, record: Standard)

  /** The pushes made while one record's words are walked: only words longer than 2 characters. */
  function PostingsOf(words: seq<string>, s: Standard): seq<Posting> {
    if words == [] then []
    else
      var w := words[|words| - 1];
      PostingsOf(words[..|words| - 1], s) + (if |w| > 2 then [Posting(w, s)] else [])
  }

  /** Every push `buildSearchIndex` makes over `data`, in order. */
  function Postings(data: seq<Standard>): seq<Posting> {
    if data == [] then []
    else Postings(data[..|data| - 1]) + PostingsOf(Words(data[|data| - 1]), data[|data| - 1])
  }

  function WordsOf(ps: seq<Posting>): seq<string> {
    seq(|ps|, i requires 0 <= i < |ps| => ps[i].word)
  }

  /** The index's keys in `Map` order: each word where it is first pushed. */
  function Keys(ps: seq<Posting>): seq<string> {
    Dedup(WordsOf(ps))
  }

  /** The bucket of `w`: the records pushed under `w`, in push order. */
  function Bucket(ps: seq<Posting>, w: string): seq<Standard> {
    if ps == [] then []
    else Bucket(ps[..|ps| - 1], w) + (if ps[|ps| - 1].word == w then [ps[|ps| - 1].record] else [])
  }

  /** The index after the pushes `ps` into an empty `Map`. */
  function Index(ps: seq<Posting>): map<string, seq<Standard>> {
    map w | w in Keys(ps) :: Bucket(ps, w)
  }

  /**
   * Reference definition of a bucket, record by record: each record of
   * `data`, in order, repeated once per occurrence of `w` among its words,
   * and never for a word of 2 characters or fewer.
   */
  function BucketByRecord(data: seq<Standard>, w: string): seq<Standard> {
    if data == [] then []
    else
      var s := data[|data| - 1];
      BucketByRecord(data[..|data| - 1], w) + Repeat(s, if |w| > 2 then CountOf(Words(s), w) else 0)
  }

  // ---------------------------------------------------------------------------
  // Properties

  /** One more push adds its word at the end of the key order if it is new, and its record at the end of that bucket. */
  lemma IndexStep(ps: seq<Posting>, p: Posting)
    ensures Keys(ps + [p]) == if p.word in Keys(ps) then Keys(ps) else Keys(ps) + [p.word]
    ensures forall w :: Bucket(ps + [p], w) == Bucket(ps, w) + (if w == p.word then [p.record] else [])
  {
    assert (ps + [p])[..|ps|] == ps;
    assert WordsOf(ps + [p]) == WordsOf(ps) + [p.word];
    assert (WordsOf(ps) + [p.word])[..|ps|] == WordsOf(ps);
  }

  lemma {:induction false} PostingsOfShape(words: seq<string>, s: Standard)
    ensures forall i :: 0 <= i < |PostingsOf(words, s)| ==>
      var p := PostingsOf(words, s)[i];
      |p.word| > 2 && p.word in words && p.record == s
  {
    if words != [] {
      var n := |words| - 1;
      PostingsOfShape(words[..n], s);
      assert forall w :: w in words[..n] ==> w in words;
    }
  }

  /** Every push is of a word longer than 2 characters, taken from the words of a record of `data`, into that record's bucket. */
  lemma {:induction false} PostingsShape(data: seq<Standard>)
    ensures forall i :: 0 <= i < |Postings(data)| ==>
      var p := Postings(data)[i];
      |p.word| > 2 && p.word in Words(p.record) && p.record in data
  {
    if data != [] {
      var n := |data| - 1;
      PostingsShape(data[..n]);
      PostingsOfShape(Words(data[n]), data[n]);
      var ps, qs := Postings(data[..n]), PostingsOf(Words(data[n]), data[n]);
      forall i | 0 <= i < |ps + qs|
        ensures var p: Posting := (ps + qs)[i]; |p.word| > 2 && p.word in Words(p.record) && p.record in data
      {
        if i < |ps| {
          assert (ps + qs)[i] == ps[i];
          assert data[..n] <= data;
        } else {
          assert (ps + qs)[i] == qs[i - |ps|];
        }
      }
    }
  }

  /**
   * Every key of the index is longer than 2 characters, free of white space
   * and of upper-case letters, and is one of the whitespace-separated words of
   * some record's lower-cased `standard topic excerpt` text.
   */
  lemma KeyIsToken(data: seq<Standard>, w: string)
    requires w in Keys(Postings(data))
    ensures |w| > 2 && NoSpace(w) && NoUpper(w)
    ensures exists r :: r in data && w in Words(r)
  {
    var ps := Postings(data);
    DedupSpec(WordsOf(ps));
    var i :| 0 <= i < |ps| && WordsOf(ps)[i] == w;
    PostingsShape(data);
    var r := ps[i].record;
    var k :| 0 <= k < |Words(r)| && Words(r)[k] == w;
    SplitWsChars(SearchableText(r), IsNotUpper);
  }

  /** Buckets concatenate over concatenated pushes. */
  lemma {:induction false} BucketAppend(ps: seq<Posting>, qs: seq<Posting>, w: string)
    ensures Bucket(ps + qs, w) == Bucket(ps, w) + Bucket(qs, w)
    decreases |qs|
  {
    if qs == [] {
      assert ps + qs == ps;
    } else {
      var n := |qs| - 1;
      assert (ps + qs)[..|ps + qs| - 1] == ps + qs[..n];
      BucketAppend(ps, qs[..n], w);
    }
  }

  lemma {:induction false} BucketOfRecord(words: seq<string>, s: Standard, w: string)
    ensures Bucket(PostingsOf(words, s), w) == Repeat(s, if |w| > 2 then CountOf(words, w) else 0)
  {
    if words != [] {
      var n := |words| - 1;
      var last := words[n];
      BucketOfRecord(words[..n], s, w);
      var extra := if |last| > 2 then [Posting(last, s)] else [];
      BucketAppend(PostingsOf(words[..n], s), extra, w);
      if |last| > 2 {
        assert Bucket(extra, w) == Bucket([], w) + (if last == w then [s] else []);
      }
    }
  }

  /**
   * Each bucket lists the records of `data` in data order, each once per
   * occurrence of the word among its words.
   */
  lemma {:induction false} BucketsInDataOrder(data: seq<Standard>, w: string)
    ensures Bucket(Postings(data), w) == BucketByRecord(data, w)
  {
    if data != [] {
      var n := |data| - 1;
      BucketsInDataOrder(data[..n], w);
      BucketAppend(Postings(data[..n]), PostingsOf(Words(data[n]), data[n]), w);
      BucketOfRecord(Words(data[n]), data[n], w);
    }
  }

  lemma {:induction false} WordsIffBucket(ps: seq<Posting>, w: string)
    ensures w in WordsOf(ps) <==> Bucket(ps, w) != []
  {
    if ps != [] {
      var n := |ps| - 1;
      WordsIffBucket(ps[..n], w);
      assert WordsOf(ps) == WordsOf(ps[..n]) + [ps[n].word];
    }
  }

  /** A word is a key exactly when its bucket is non-empty. */
  lemma KeyIffBucket(ps: seq<Posting>, w: string)
    ensures w in Keys(ps) <==> Bucket(ps, w) != []
  {
    DedupSpec(WordsOf(ps));
    WordsIffBucket(ps, w);
  }

  /** A record is in the bucket of `w` exactly when it is a record of `data` with `w`, longer than 2 characters, among its words. */
  lemma {:induction false} BucketByRecordMembers(data: seq<Standard>, w: string, x: Standard)
    ensures x in BucketByRecord(data, w) <==> x in data && |w| > 2 && w in Words(x)
  {
    if data != [] {
      var n := |data| - 1;
      var s := data[n];
      BucketByRecordMembers(data[..n], w, x);
      CountOfPositive(Words(s), w);
      assert data == data[..n] + [s];
      RepeatMembers(s, if |w| > 2 then CountOf(Words(s), w) else 0, x);
    }
  }
}
