/**
 The search engine (class SearchServer): a set of stop words, an inverted index from
 each word to the term frequency of that word in each document that contains it, and
 the number of documents added so far. Every operation is a pure function from the
 old server value to the new one or to the query result.

 The inverse document frequency of the source is `log(document_count_ / df)`; floating
 point and `log` are not modelled, so every query operation takes the IDF as a
 parameter `idf(documentCount, documentFrequency)`: the scores are stated for any IDF
 that depends only on those two numbers, as CalculateIdf does.
 */
module SearchServer {
  import opened Tokenizer
  import opened Ordering
  import opened Ranking

  /** word -> (document id -> term frequency) */
  type Index = map<string, map<int, real>>

  datatype Server = Server(stop: set<string>, index: Index, count: nat)

  /** A default-constructed SearchServer. */
  const NewServer: Server := Server({}, map[], 0)

  datatype Query = Query(positive: set<string>, negative: set<string>)

  /** A result, or the `std::out_of_range` thrown by `.at(word)` for a query word that
      no document contains. */
  datatype Outcome<T> = Ok(value: T) | OutOfRange(word: string)

  /** Term frequency of `w` in document `id`; zero when the index holds no entry. */
  function Tf(index: Index, w: string, id: int): real
  {
    if w in index && id in index[w] then index[w][id] else 0.0
  }

  predicate Has(index: Index, w: string, id: int)
  {
    w in index && id in index[w]
  }

  /** No word of the index has an entry for `id` yet. */
  predicate IsNewId(index: Index, id: int)
  {
    forall w :: w in index ==> id !in index[w]
  }

  /** What ingestion keeps true when stop words are set before any document is
      added: no stop word is indexed, and every indexed word occurs in a document. */
  predicate Consistent(s: Server)
  {
    forall w :: w in s.index ==> w !in s.stop && s.index[w] != map[]
  }

  // ---------------------------------------------------------------------------
  // Stop words

  /** Adds every word of `text` to the stop words. */
  function SetStopWords(s: Server, text: string): (r: Server)
    ensures forall w :: w in r.stop <==> w in s.stop || w in SplitIntoWords(text)
    ensures r.index == s.index && r.count == s.count
  {
    s.(stop := s.stop + set w | w in SplitIntoWords(text))
  }

  lemma SetStopWordsIdempotent(s: Server, text: string)
    ensures SetStopWords(SetStopWords(s, text), text) == SetStopWords(s, text)
  {
  }

  /** Setting the stop words of two texts one after the other is the same as setting
      those of both texts joined by a space. */
  lemma SetStopWordsTwice(s: Server, a: string, b: string)
    ensures SetStopWords(SetStopWords(s, a), b) == SetStopWords(s, a + [Space] + b)
  {
    SplitAcrossSpace(a, b);
    var r1 := SetStopWords(SetStopWords(s, a), b);
    var r2 := SetStopWords(s, a + [Space] + b);
    assert r1.stop == r2.stop;
  }

  /** Stop words set before ingestion begins keep the server consistent. */
  lemma SetStopWordsOnEmptyIndex(s: Server, text: string)
    requires s.index == map[]
    ensures Consistent(SetStopWords(s, text))
  {
  }

  predicate IsStopWord(s: Server, w: string)
  {
    w in s.stop
  }

  /** `a` can be obtained from `b` by deleting elements. */
  predicate IsSubsequence(a: seq<string>, b: seq<string>)
    decreases |b|
  {
    a == [] || (b != [] && (if a[0] == b[0] then IsSubsequence(a[1..], b[1..]) else IsSubsequence(a, b[1..])))
  }

  /** The words of `ws` that are not stop words, in order. */
  function WithoutStopWords(s: Server, ws: seq<string>): (r: seq<string>)
    ensures IsSubsequence(r, ws)
    ensures forall i :: 0 <= i < |r| ==> !IsStopWord(s, r[i])
    ensures forall w :: !IsStopWord(s, w) ==> multiset(r)[w] == multiset(ws)[w]
    ensures forall w :: w in r ==> w in ws
  {
    if ws == [] then []
    else
      assert ws == [ws[0]] + ws[1..];
      if IsStopWord(s, ws[0]) then WithoutStopWords(s, ws[1..])
      else [ws[0]] + WithoutStopWords(s, ws[1..])
  }

  /** The tokens of `text` that are not stop words, in order. */
  function SplitIntoWordsNoStop(s: Server, text: string): (r: seq<string>)
    ensures AllWords(r)
    ensures IsSubsequence(r, SplitIntoWords(text))
    ensures forall i :: 0 <= i < |r| ==> !IsStopWord(s, r[i])
    ensures forall w :: !IsStopWord(s, w) ==> multiset(r)[w] == multiset(SplitIntoWords(text))[w]
  {
    WithoutStopWords(s, SplitIntoWords(text))
  }

  lemma {:induction false} SubsequenceCounts(a: seq<string>, b: seq<string>)
    requires IsSubsequence(a, b)
    ensures multiset(a) <= multiset(b)
    decreases |b|
  {
    if a != [] {
      assert b == [b[0]] + b[1..];
      if a[0] == b[0] {
        SubsequenceCounts(a[1..], b[1..]);
        assert a == [a[0]] + a[1..];
      } else {
        SubsequenceCounts(a, b[1..]);
      }
    }
  }

  /** The in-order sequence of non-stop words is the only subsequence of the words
      that has no stop word and keeps every occurrence of every other word. */
  lemma {:induction false} WithoutStopWordsIsUnique(s: Server, ws: seq<string>, r: seq<string>)
    requires IsSubsequence(r, ws)
    requires forall i :: 0 <= i < |r| ==> !IsStopWord(s, r[i])
    requires forall w :: !IsStopWord(s, w) ==> multiset(r)[w] == multiset(ws)[w]
    ensures r == WithoutStopWords(s, ws)
    decreases |ws|
  {
    if ws == [] {
      assert r == [];
    } else {
      assert ws == [ws[0]] + ws[1..];
      if r != [] {
        assert r == [r[0]] + r[1..];
      }
      if IsStopWord(s, ws[0]) {
        assert r == [] || r[0] != ws[0];
        assert IsSubsequence(r, ws[1..]);
        WithoutStopWordsIsUnique(s, ws[1..], r);
      } else if r != [] && r[0] == ws[0] {
        WithoutStopWordsIsUnique(s, ws[1..], r[1..]);
      } else {
        assert multiset(r)[ws[0]] >= 1;
        assert r != [];
        assert IsSubsequence(r, ws[1..]);
        SubsequenceCounts(r, ws[1..]);
        assert false;
      }
    }
  }

  // ---------------------------------------------------------------------------
  // Ingestion

  /** `word_to_document_freqs_[w][id] += inc`, creating missing entries at zero. */
  function Bump(index: Index, w: string, id: int, inc: real): (r: Index)
    ensures forall v :: v in r <==> v in index || v == w
    ensures forall v, d :: Has(r, v, d) <==> Has(index, v, d) || (v == w && d == id)
    ensures forall v :: v in index && index[v] != map[] ==> r[v] != map[]
    ensures r[w] != map[]
  {
    var row := if w in index then index[w] else map[];
    var tf := if id in row then row[id] else 0.0;
    index[w := row[id := tf + inc]]
  }

  lemma BumpTf(index: Index, w: string, id: int, inc: real, v: string, d: int)
    ensures Tf(Bump(index, w, id, inc), v, d) == Tf(index, v, d) + (if v == w && d == id then inc else 0.0)
  {
  }

  /** Adds `inc` to the entry of `id` once per occurrence of each word of `ws`: the
      inner loop of AddDocument. */
  function AddOccurrences(index: Index, ws: seq<string>, id: int, inc: real): (r: Index)
    ensures forall w :: w in r <==> w in index || w in ws
    ensures forall w, d :: Has(r, w, d) <==> Has(index, w, d) || (d == id && w in ws)
    ensures forall w :: w in index && index[w] != map[] ==> r[w] != map[]
    ensures forall w :: w in ws ==> r[w] != map[]
    decreases |ws|
  {
    if ws == [] then index
    else
      assert forall w :: w in ws <==> w == ws[0] || w in ws[1..];
      AddOccurrences(Bump(index, ws[0], id, inc), ws[1..], id, inc)
  }

  /** `inc` added up `n` times, starting from zero. */
  function Times(n: nat, inc: real): real
  {
    if n == 0 then 0.0 else Times(n - 1, inc) + inc
  }

  lemma {:induction false} TimesAdd(a: nat, b: nat, inc: real)
    ensures Times(a + b, inc) == Times(a, inc) + Times(b, inc)
    decreases b
  {
    if b > 0 {
      TimesAdd(a, b - 1, inc);
    }
  }

  lemma {:induction false} TimesIsProduct(n: nat, inc: real)
    ensures Times(n, inc) == (n as real) * inc
  {
    if n > 0 {
      TimesIsProduct(n - 1, inc);
    }
  }

  /** `c` shares of `1/n` make `c/n`. */
  lemma TimesReciprocal(c: nat, n: nat)
    requires n > 0
    ensures Times(c, 1.0 / (n as real)) == (c as real) / (n as real)
  {
    var inc := 1.0 / (n as real);
    TimesIsProduct(c, inc);
    assert (c as real) * inc == (c as real) / (n as real);
  }

  /** `n` shares of `1/n` make one. */
  lemma TimesReciprocalWhole(n: nat)
    requires n > 0
    ensures Times(n, 1.0 / (n as real)) == 1.0
  {
    TimesReciprocal(n, n);
  }

  /** Each occurrence of a word adds `inc` to its term frequency in document `id`;
      nothing else changes. */
  lemma {:induction false} AddOccurrencesTf(index: Index, ws: seq<string>, id: int, inc: real, w: string, d: int)
    ensures Tf(AddOccurrences(index, ws, id, inc), w, d)
         == Tf(index, w, d) + (if d == id then Times(multiset(ws)[w], inc) else 0.0)
    decreases |ws|
  {
    if ws != [] {
      var b := Bump(index, ws[0], id, inc);
      assert AddOccurrences(index, ws, id, inc) == AddOccurrences(b, ws[1..], id, inc);
      AddOccurrencesTf(b, ws[1..], id, inc, w, d);
      BumpTf(index, ws[0], id, inc, w, d);
      CountOfFirst(ws, w);
      if w == ws[0] {
        TimesAdd(multiset(ws[1..])[w], 1, inc);
      }
    }
  }

  lemma CountOfFirst(ws: seq<string>, w: string)
    requires ws != []
    ensures multiset(ws)[w] == multiset(ws[1..])[w] + (if w == ws[0] then 1 else 0)
  {
    assert ws == [ws[0]] + ws[1..];
  }

  /** Indexes the non-stop words of `text` under `id`, each occurrence adding
      1/|words| to its term frequency, and counts one more document. */
  function AddDocument(s: Server, id: int, text: string): (r: Server)
    ensures r.count == s.count + 1
    ensures r.stop == s.stop
    ensures forall w, d :: Has(r.index, w, d) <==> Has(s.index, w, d) || (d == id && w in SplitIntoWordsNoStop(s, text))
    ensures forall w, d :: d != id ==> Tf(r.index, w, d) == Tf(s.index, w, d)
    ensures var words := SplitIntoWordsNoStop(s, text);
      words != [] ==> forall w ::
        Tf(r.index, w, id) == Tf(s.index, w, id) + (multiset(words)[w] as real) / (|words| as real)
    ensures forall w :: w in r.index <==> w in s.index || w in SplitIntoWordsNoStop(s, text)
    ensures forall w :: IsStopWord(s, w) && w in r.index ==> w in s.index
    ensures (forall t :: t in SplitIntoWords(text) ==> IsStopWord(s, t)) ==> r.index == s.index
    ensures var words := SplitIntoWordsNoStop(s, text);
      IsNewId(s.index, id) && words != [] ==>
        forall w :: w in words ==> Tf(r.index, w, id) == (multiset(words)[w] as real) / (|words| as real)
  {
    var words := SplitIntoWordsNoStop(s, text);
    if words == [] then
      Server(s.stop, s.index, s.count + 1)
    else
      var index := AddOccurrences(s.index, words, id, 1.0 / (|words| as real));
      IndexedShares(s.index, words, id);
      Server(s.stop, index, s.count + 1)
  }

  /** Indexing `words` under `id` adds to each word's entry for `id` its share of the
      document (on top of what an earlier document with the same id left there, as
      `+=` does), and leaves the other documents' entries as they were. */
  lemma IndexedShares(index: Index, words: seq<string>, id: int)
    requires words != []
    ensures var r := AddOccurrences(index, words, id, 1.0 / (|words| as real));
      forall w, d :: d != id ==> Tf(r, w, d) == Tf(index, w, d)
    ensures var r := AddOccurrences(index, words, id, 1.0 / (|words| as real));
      forall w :: Tf(r, w, id) == Tf(index, w, id) + (multiset(words)[w] as real) / (|words| as real)
    ensures var r := AddOccurrences(index, words, id, 1.0 / (|words| as real));
      IsNewId(index, id) ==> forall w :: Tf(r, w, id) == (multiset(words)[w] as real) / (|words| as real)
  {
    var inc := 1.0 / (|words| as real);
    var r := AddOccurrences(index, words, id, inc);
    forall w, d | d != id
      ensures Tf(r, w, d) == Tf(index, w, d)
    {
      AddOccurrencesTf(index, words, id, inc, w, d);
    }
    forall w
      ensures Tf(r, w, id) == Tf(index, w, id) + (multiset(words)[w] as real) / (|words| as real)
    {
      AddOccurrencesTf(index, words, id, inc, w, id);
      TimesReciprocal(multiset(words)[w], |words|);
    }
    if IsNewId(index, id) {
      forall w
        ensures Tf(r, w, id) == (multiset(words)[w] as real) / (|words| as real)
      {
        assert Tf(index, w, id) == 0.0;
      }
    }
  }

  /** Adding a document keeps the server consistent. */
  lemma AddDocumentKeepsConsistent(s: Server, id: int, text: string)
    requires Consistent(s)
    ensures Consistent(AddDocument(s, id, text))
  {
    var words := SplitIntoWordsNoStop(s, text);
    if words != [] {
      var r := AddDocument(s, id, text);
      assert r.index == AddOccurrences(s.index, words, id, 1.0 / (|words| as real));
    }
  }

  /** Sum of the term frequencies of document `id` over the words `ws`. */
  function Weight(index: Index, ws: seq<string>, id: int): real
  {
    if ws == [] then 0.0 else Tf(index, ws[0], id) + Weight(index, ws[1..], id)
  }

  /** Sum over the words `ws` of their number of occurrences in `words`. */
  function CountSum(ws: seq<string>, words: seq<string>): nat
  {
    if ws == [] then 0 else multiset(words)[ws[0]] + CountSum(ws[1..], words)
  }

  lemma {:induction false} WeightOfCounts(index: Index, ws: seq<string>, id: int, words: seq<string>, inc: real)
    requires forall w :: w in ws ==> Tf(index, w, id) == Times(multiset(words)[w], inc)
    ensures Weight(index, ws, id) == Times(CountSum(ws, words), inc)
  {
    if ws != [] {
      assert ws[0] in ws;
      WeightOfCounts(index, ws[1..], id, words, inc);
      TimesAdd(multiset(words)[ws[0]], CountSum(ws[1..], words), inc);
    }
  }

  lemma {:induction false} CountSumOfOne(ws: seq<string>, x: string, words: seq<string>)
    ensures CountSum(ws, [x] + words) == CountSum(ws, words) + multiset(ws)[x]
  {
    if ws != [] {
      assert ws == [ws[0]] + ws[1..];
      CountSumOfOne(ws[1..], x, words);
    }
  }

  lemma {:induction false} AscendingCountsOnce(ws: seq<string>, x: string)
    requires Ascending(ws)
    requires x in ws
    ensures multiset(ws)[x] == 1
  {
    assert ws == [ws[0]] + ws[1..];
    if ws[0] == x {
      if x in ws[1..] {
        var k :| 0 <= k < |ws[1..]| && ws[1..][k] == x;
        assert Below(ws[0], ws[k + 1]);
        BelowIrreflexive(x);
      }
    } else {
      AscendingCountsOnce(ws[1..], x);
    }
  }

  /** Counting, over distinct words that include all of `words`, how often each occurs
      in `words` counts every occurrence exactly once. */
  lemma {:induction false} CountSumCoversAll(ws: seq<string>, words: seq<string>)
    requires Ascending(ws)
    requires forall w :: w in words ==> w in ws
    ensures CountSum(ws, words) == |words|
    decreases |words|
  {
    if words == [] {
      CountSumOfNothing(ws);
    } else {
      assert words == [words[0]] + words[1..];
      CountSumOfOne(ws, words[0], words[1..]);
      AscendingCountsOnce(ws, words[0]);
      CountSumCoversAll(ws, words[1..]);
    }
  }

  lemma {:induction false} CountSumOfNothing(ws: seq<string>)
    ensures CountSum(ws, []) == 0
  {
    if ws != [] {
      CountSumOfNothing(ws[1..]);
    }
  }

  /** The term frequencies of a newly added document with at least one non-stop word
      add up to one over the whole index. */
  lemma TermFrequenciesSumToOne(s: Server, id: int, text: string)
    requires IsNewId(s.index, id)
    requires SplitIntoWordsNoStop(s, text) != []
    ensures var r := AddDocument(s, id, text);
      Weight(r.index, Enumerate(r.index.Keys), id) == 1.0
  {
    var words := SplitIntoWordsNoStop(s, text);
    assert AddDocument(s, id, text).index == AddOccurrences(s.index, words, id, 1.0 / (|words| as real));
    NewDocumentWeighsOne(s.index, words, id);
  }

  lemma NewDocumentWeighsOne(index: Index, words: seq<string>, id: int)
    requires IsNewId(index, id)
    requires words != []
    ensures var r := AddOccurrences(index, words, id, 1.0 / (|words| as real));
      Weight(r, Enumerate(r.Keys), id) == 1.0
  {
    var inc := 1.0 / (|words| as real);
    var r := AddOccurrences(index, words, id, inc);
    var ws := Enumerate(r.Keys);
    NewDocumentCounts(index, words, id, inc);
    WeightOfCounts(r, ws, id, words, inc);
    assert forall w :: w in words ==> w in ws;
    CountSumCoversAll(ws, words);
    TimesReciprocalWhole(|words|);
  }

  /** A document indexed under a new id has, for each word, one share per occurrence. */
  lemma NewDocumentCounts(index: Index, words: seq<string>, id: int, inc: real)
    requires IsNewId(index, id)
    ensures forall w :: Tf(AddOccurrences(index, words, id, inc), w, id) == Times(multiset(words)[w], inc)
  {
    forall w
      ensures Tf(AddOccurrences(index, words, id, inc), w, id) == Times(multiset(words)[w], inc)
    {
      assert Tf(index, w, id) == 0.0;
      AddOccurrencesTf(index, words, id, inc, w, id);
    }
  }

  /** The documents `docs` added one after the other, in order. */
  function AddDocuments(s: Server, docs: seq<(int, string)>): (r: Server)
    ensures r.count == s.count + |docs|
    ensures r.stop == s.stop
    decreases |docs|
  {
    if docs == [] then s else AddDocuments(AddDocument(s, docs[0].0, docs[0].1), docs[1..])
  }

  lemma {:induction false} AddDocumentsKeepConsistent(s: Server, docs: seq<(int, string)>)
    requires Consistent(s)
    ensures Consistent(AddDocuments(s, docs))
    decreases |docs|
  {
    if docs != [] {
      var next := AddDocument(s, docs[0].0, docs[0].1);
      AddDocumentKeepsConsistent(s, docs[0].0, docs[0].1);
      AddDocumentsKeepConsistent(next, docs[1..]);
      assert AddDocuments(s, docs) == AddDocuments(next, docs[1..]);
    }
  }

  /** A server built as the program builds one, stop words first on a fresh server and
      then the documents in order, is consistent and has counted every document. */
  lemma BuiltServerIsConsistent(stopText: string, docs: seq<(int, string)>)
    ensures var s := AddDocuments(SetStopWords(NewServer, stopText), docs);
      Consistent(s) && s.count == |docs|
  {
    SetStopWordsOnEmptyIndex(NewServer, stopText);
    AddDocumentsKeepConsistent(SetStopWords(NewServer, stopText), docs);
  }

  // ---------------------------------------------------------------------------
  // Queries

  /** A query word written with a leading minus; `word[0]` of the source, which reads
      the terminating zero for an empty string. */
  predicate IsMinusWord(w: string)
  {
    |w| > 0 && w[0] == '-'
  }

  /** Adds each word of `ws` to the query, as a negative word without its minus or as
      a positive word. */
  function ParseWords(q: Query, ws: seq<string>): (r: Query)
    ensures q.negative <= r.negative
    ensures forall w :: w in r.positive <==> w in q.positive || (w in ws && !IsMinusWord(w))
    ensures forall i :: 0 <= i < |ws| && IsMinusWord(ws[i]) ==> ws[i][1..] in r.negative
    ensures forall w :: w in r.negative ==>
      w in q.negative || exists i :: 0 <= i < |ws| && IsMinusWord(ws[i]) && ws[i][1..] == w
    decreases |ws|
  {
    if ws == [] then q
    else
      var w := ws[0];
      var q' := if IsMinusWord(w) then q.(negative := q.negative + {w[1..]})
                else q.(positive := q.positive + {w});
      var r := ParseWords(q', ws[1..]);
      assert forall i :: 1 <= i < |ws| ==> ws[i] == ws[1..][i - 1];
      r
  }

  /** The query of the non-stop tokens of `text`: every token lands in exactly one
      place, a token with a leading minus, stripped of it, among the negative words and
      any other among the positive words; nothing else is added. */
  function ParseQuery(s: Server, text: string): (q: Query)
    ensures var words := SplitIntoWordsNoStop(s, text);
      forall w :: w in q.positive <==> w in words && !IsMinusWord(w)
    ensures var words := SplitIntoWordsNoStop(s, text);
      forall i :: 0 <= i < |words| && IsMinusWord(words[i]) ==> words[i][1..] in q.negative
    ensures var words := SplitIntoWordsNoStop(s, text);
      forall w :: w in q.negative ==>
        exists i :: 0 <= i < |words| && IsMinusWord(words[i]) && words[i][1..] == w
  {
    ParseWords(Query({}, {}), SplitIntoWordsNoStop(s, text))
  }

  /** No positive word starts with a minus, and a lone `-` yields the empty negative
      word. */
  lemma ParseQueryMinusCases(s: Server, text: string)
    ensures forall w :: w in ParseQuery(s, text).positive ==> !IsMinusWord(w)
    ensures "-" in SplitIntoWordsNoStop(s, text) ==> "" in ParseQuery(s, text).negative
  {
    var words := SplitIntoWordsNoStop(s, text);
    if "-" in words {
      var i :| 0 <= i < |words| && words[i] == "-";
      assert words[i][1..] == "";
    }
  }

  /** Every positive word of `q` is a key of the index, so `.at` does not throw. */
  predicate KnownWords(s: Server, q: Query)
  {
    forall w :: w in q.positive ==> w in s.index
  }

  /** Position of the first word of `ws` that is not a key of the index, or |ws|. */
  function FirstUnknown(index: Index, ws: seq<string>): (k: nat)
    ensures k <= |ws|
    ensures forall i :: 0 <= i < k ==> ws[i] in index
    ensures k < |ws| ==> ws[k] !in index
  {
    if ws == [] || ws[0] !in index then 0 else 1 + FirstUnknown(index, ws[1..])
  }

  /** Over an ascending sequence, the first unknown word is the least word missing
      from the index: every word before it in set order is a key. */
  lemma FirstUnknownIsFirstMissing(index: Index, ws: seq<string>)
    requires Ascending(ws)
    requires FirstUnknown(index, ws) < |ws|
    ensures forall w :: w in ws && Below(w, ws[FirstUnknown(index, ws)]) ==> w in index
  {
    var k := FirstUnknown(index, ws);
    forall w | w in ws && Below(w, ws[k])
      ensures w in index
    {
      var j :| 0 <= j < |ws| && ws[j] == w;
      if j > k {
        BelowAsymmetric(w, ws[k]);
      } else if j == k {
        BelowIrreflexive(w);
      }
    }
  }

  /** Word `w` contributes to the relevance of document `d`: it is a positive word, not
      also a negative one, and `d` contains it. */
  predicate Matches(s: Server, q: Query, w: string, d: int)
  {
    w in q.positive && w !in q.negative && w in s.index && d in s.index[w]
  }

  /** tf * idf of word `w` in document `d`, or nothing when the word is also negative
      or the document lacks it. */
  function Contribution(s: Server, q: Query, idf: (nat, nat) -> real, w: string, d: int): real
    requires w in s.index
  {
    if w in q.negative || d !in s.index[w] then 0.0
    else s.index[w][d] * idf(s.count, |s.index[w]|)
  }

  /** Relevance of document `d`: the contributions of the words `ws` added up. */
  function Score(s: Server, q: Query, idf: (nat, nat) -> real, ws: seq<string>, d: int): real
    requires forall w :: w in ws ==> w in s.index
  {
    if ws == [] then 0.0 else Contribution(s, q, idf, ws[0], d) + Score(s, q, idf, ws[1..], d)
  }

  /** One pass of the outer loop of FindAllDocuments: every document of the row of `w`
      gets `tf * idf` added to its relevance, unless `w` is itself a negative word. */
  function AddWordScores(s: Server, q: Query, idf: (nat, nat) -> real, rel: map<int, real>, w: string): map<int, real>
    requires w in s.index
  {
    if w in q.negative then rel
    else
      var row := s.index[w];
      var weight := idf(s.count, |row|);
      map d | d in rel.Keys + row.Keys ::
        (if d in rel then rel[d] else 0.0) + (if d in row then row[d] * weight else 0.0)
  }

  function Get(rel: map<int, real>, d: int): real
  {
    if d in rel then rel[d] else 0.0
  }

  /** `document_to_relevance` after the outer loop has visited the words `ws`. */
  function Accumulate(s: Server, q: Query, idf: (nat, nat) -> real, rel: map<int, real>, ws: seq<string>): (r: map<int, real>)
    requires forall w :: w in ws ==> w in s.index
    requires forall w :: w in ws ==> w in q.positive
    ensures forall d :: d in r <==> d in rel || exists w :: w in ws && Matches(s, q, w, d)
    ensures forall d :: Get(r, d) == Get(rel, d) + Score(s, q, idf, ws, d)
    decreases |ws|
  {
    if ws == [] then rel
    else
      var rel' := AddWordScores(s, q, idf, rel, ws[0]);
      assert forall d :: Get(rel', d) == Get(rel, d) + Contribution(s, q, idf, ws[0], d);
      assert forall w :: w in ws <==> w == ws[0] || w in ws[1..];
      Accumulate(s, q, idf, rel', ws[1..])
  }

  /** Relevance of every document matched by a query with known words. */
  function Relevances(s: Server, q: Query, idf: (nat, nat) -> real): map<int, real>
    requires KnownWords(s, q)
  {
    Accumulate(s, q, idf, map[], Enumerate(q.positive))
  }

  /** The relevance a document has for a query: the sum over the positive words of
      tf * idf, where a word that is also negative counts for nothing. */
  function Relevance(s: Server, q: Query, idf: (nat, nat) -> real, d: int): real
    requires KnownWords(s, q)
  {
    Score(s, q, idf, Enumerate(q.positive), d)
  }

  /** Some positive, non-negated word of the query occurs in document `d`. */
  predicate Matched(s: Server, q: Query, d: int)
  {
    exists w :: w in q.positive && Matches(s, q, w, d)
  }

  /** The documents with a relevance are exactly those matched by some word, and each
      has the relevance the query gives it. */
  lemma RelevancesCoverMatches(s: Server, q: Query, idf: (nat, nat) -> real)
    requires KnownWords(s, q)
    ensures forall d :: d in Relevances(s, q, idf) <==> Matched(s, q, d)
    ensures forall d :: d in Relevances(s, q, idf) ==> Relevances(s, q, idf)[d] == Relevance(s, q, idf, d)
  {
    var ws := Enumerate(q.positive);
    assert forall w :: w in ws <==> w in q.positive;
    var rel := Accumulate(s, q, idf, map[], ws);
    assert rel == Relevances(s, q, idf);
    forall d
      ensures d in rel <==> Matched(s, q, d)
    {
      if d in rel {
        var w :| w in ws && Matches(s, q, w, d);
      }
      if Matched(s, q, d) {
        var w :| w in q.positive && Matches(s, q, w, d);
        assert w in ws && Matches(s, q, w, d);
      }
    }
    forall d | d in rel
      ensures rel[d] == Relevance(s, q, idf, d)
    {
      assert Get(rel, d) == Get(map[], d) + Score(s, q, idf, ws, d);
    }
  }

  /** One document per id of `ids`, with the relevance `rel` records for it. */
  function ToDocuments(rel: map<int, real>, ids: seq<int>): (ds: seq<Document>)
    requires forall i :: 0 <= i < |ids| ==> ids[i] in rel
    ensures |ds| == |ids|
    ensures forall i :: 0 <= i < |ds| ==> ds[i].id == ids[i] && ds[i].relevance == rel[ids[i]]
  {
    if ids == [] then [] else [Document(ids[0], rel[ids[0]])] + ToDocuments(rel, ids[1..])
  }

  /** `matched_documents` before sorting: one document per matched id, with its
      relevance. */
  function Candidates(s: Server, q: Query, idf: (nat, nat) -> real): (ds: seq<Document>)
    requires KnownWords(s, q)
    ensures DistinctIds(ds)
    ensures forall i :: 0 <= i < |ds| ==> ds[i].relevance == Relevance(s, q, idf, ds[i].id)
    ensures forall i :: 0 <= i < |ds| ==> Matched(s, q, ds[i].id)
    ensures forall d :: Matched(s, q, d) ==> exists i :: 0 <= i < |ds| && ds[i].id == d
  {
    var rel := Relevances(s, q, idf);
    var ids := EnumerateIds(rel.Keys);
    var ds := ToDocuments(rel, ids);
    CandidatesFacts(s, q, idf, rel, ids, ds);
    ds
  }

  lemma CandidatesFacts(s: Server, q: Query, idf: (nat, nat) -> real, rel: map<int, real>, ids: seq<int>, ds: seq<Document>)
    requires KnownWords(s, q)
    requires rel == Relevances(s, q, idf)
    requires forall d :: d in ids <==> d in rel
    requires forall i, j :: 0 <= i < j < |ids| ==> ids[i] < ids[j]
    requires |ds| == |ids|
    requires forall i :: 0 <= i < |ds| ==> ds[i].id == ids[i] && ds[i].relevance == rel[ids[i]]
    ensures DistinctIds(ds)
    ensures forall i :: 0 <= i < |ds| ==> ds[i].relevance == Relevance(s, q, idf, ds[i].id)
    ensures forall i :: 0 <= i < |ds| ==> Matched(s, q, ds[i].id)
    ensures forall d :: Matched(s, q, d) ==> exists i :: 0 <= i < |ds| && ds[i].id == d
  {
    RelevancesCoverMatches(s, q, idf);
    forall d | Matched(s, q, d)
      ensures exists i :: 0 <= i < |ds| && ds[i].id == d
    {
      assert d in ids;
      var i :| 0 <= i < |ids| && ids[i] == d;
      assert ds[i].id == d;
    }
  }

  /** FindAllDocuments: the matched documents, sorted and capped, or the error thrown
      for the first positive word (in set order) that the index lacks. */
  function FindAllDocuments(s: Server, q: Query, idf: (nat, nat) -> real): (r: Outcome<seq<Document>>)
    ensures r.OutOfRange? <==> !KnownWords(s, q)
    ensures r.OutOfRange? ==>
      && r.word in q.positive && r.word !in s.index
      && forall w :: w in q.positive && Below(w, r.word) ==> w in s.index
    ensures r.Ok? ==> KnownWords(s, q) && IsTopRanking(r.value, Candidates(s, q, idf))
    ensures r.Ok? ==> DistinctIds(r.value)
  {
    var ws := Enumerate(q.positive);
    var k := FirstUnknown(s.index, ws);
    if k < |ws| then
      FirstUnknownIsFirstMissing(s.index, ws);
      OutOfRange(ws[k])
    else
      Ok(SortAndCap(Candidates(s, q, idf)))
  }

  /** Without positive words no document is matched. */
  lemma NoPositiveWordNoCandidate(s: Server, q: Query, idf: (nat, nat) -> real)
    requires q.positive == {}
    ensures Candidates(s, q, idf) == []
  {
  }

  /** FindTopDocuments: parse the query, return nothing for a query without words,
      otherwise the top documents by relevance. */
  function FindTopDocuments(s: Server, rawQuery: string, idf: (nat, nat) -> real): (r: Outcome<seq<Document>>)
    ensures var q := ParseQuery(s, rawQuery);
      q.positive == {} && q.negative == {} ==> r == Ok([])
    ensures var q := ParseQuery(s, rawQuery);
      r.OutOfRange? <==> !KnownWords(s, q)
    ensures var q := ParseQuery(s, rawQuery);
      r.OutOfRange? ==>
        && r.word in q.positive && r.word !in s.index
        && forall w :: w in q.positive && Below(w, r.word) ==> w in s.index
    ensures var q := ParseQuery(s, rawQuery);
      r.Ok? ==> KnownWords(s, q) && IsTopRanking(r.value, Candidates(s, q, idf)) && DistinctIds(r.value)
  {
    var q := ParseQuery(s, rawQuery);
    if q.positive == {} && q.negative == {} then
      NoPositiveWordNoCandidate(s, q, idf);
      Ok([])
    else
      var all := FindAllDocuments(s, q, idf);
      if all.OutOfRange? then OutOfRange(all.word)
      else
        SortAndCapOfRanking(all.value);
        Ok(SortAndCap(all.value))
  }

  // ---------------------------------------------------------------------------
  // The negative-word gate

  /** The outer loop only asks, of each word it visits, whether that word is negative:
      two queries with the same positive words that agree on this for the visited
      words accumulate the same relevances. */
  lemma {:induction false} AccumulateSameGate(s: Server, q1: Query, q2: Query, idf: (nat, nat) -> real, rel: map<int, real>, ws: seq<string>)
    requires q1.positive == q2.positive
    requires forall w :: w in ws ==> w in s.index && w in q1.positive
    requires forall w :: w in ws ==> (w in q1.negative <==> w in q2.negative)
    ensures Accumulate(s, q1, idf, rel, ws) == Accumulate(s, q2, idf, rel, ws)
    decreases |ws|
  {
    if ws != [] {
      assert ws[0] in ws;
      assert AddWordScores(s, q1, idf, rel, ws[0]) == AddWordScores(s, q2, idf, rel, ws[0]);
      assert forall w :: w in ws[1..] ==> w in ws;
      AccumulateSameGate(s, q1, q2, idf, AddWordScores(s, q1, idf, rel, ws[0]), ws[1..]);
    }
  }

  /** A negative word that is not also a positive word changes nothing: the result is
      that of the query whose negative words are only those also queried positively.
      A document containing a negative-only word is therefore not excluded. */
  lemma NegativeOnlyWordsIgnored(s: Server, q: Query, idf: (nat, nat) -> real)
    ensures FindAllDocuments(s, q, idf) == FindAllDocuments(s, Query(q.positive, q.negative * q.positive), idf)
  {
    var q2 := Query(q.positive, q.negative * q.positive);
    if KnownWords(s, q) {
      AccumulateSameGate(s, q, q2, idf, map[], Enumerate(q.positive));
      assert Relevances(s, q, idf) == Relevances(s, q2, idf);
      assert Candidates(s, q, idf) == Candidates(s, q2, idf);
    }
  }

  /** The words of `ws` that are not negative words of `q`, in order. */
  function NotNegated(q: Query, ws: seq<string>): (r: seq<string>)
    ensures forall w :: w in r <==> w in ws && w !in q.negative
  {
    if ws == [] then []
    else if ws[0] in q.negative then NotNegated(q, ws[1..])
    else [ws[0]] + NotNegated(q, ws[1..])
  }

  lemma {:induction false} NotNegatedAscending(q: Query, ws: seq<string>)
    requires Ascending(ws)
    ensures Ascending(NotNegated(q, ws))
  {
    if ws != [] {
      NotNegatedAscending(q, ws[1..]);
      if ws[0] !in q.negative {
        var r := NotNegated(q, ws[1..]);
        forall i, j | 0 <= i < j < |[ws[0]] + r|
          ensures Below(([ws[0]] + r)[i], ([ws[0]] + r)[j])
        {
          if i == 0 {
            assert ([ws[0]] + r)[j] in ws[1..];
          }
        }
      }
    }
  }

  /** Dropping the words that contribute nothing leaves every score as it was. */
  lemma {:induction false} ScoreWithoutNegated(s: Server, q: Query, q2: Query, idf: (nat, nat) -> real, ws: seq<string>, d: int)
    requires q2.negative == {}
    requires forall w :: w in ws ==> w in s.index
    ensures Score(s, q, idf, ws, d) == Score(s, q2, idf, NotNegated(q, ws), d)
  {
    if ws != [] {
      assert ws[0] in ws;
      ScoreWithoutNegated(s, q, q2, idf, ws[1..], d);
    }
  }

  /** A positive word that is also a negative word counts as if it were not in the query
      at all: the relevances are those of the query of the remaining positive words
      and no negative word. */
  lemma NegatedPositiveWordsDropped(s: Server, q: Query, idf: (nat, nat) -> real)
    requires KnownWords(s, q)
    ensures var q2 := Query(q.positive - q.negative, {});
      KnownWords(s, q2) && Relevances(s, q, idf) == Relevances(s, q2, idf)
  {
    var q2 := Query(q.positive - q.negative, {});
    RelevancesWithoutNegated(s, q, idf);
    SameEntriesSameMap(Relevances(s, q, idf), Relevances(s, q2, idf));
  }

  /** Two relevance maps with the same keys and the same value at each key are equal. */
  lemma SameEntriesSameMap(r1: map<int, real>, r2: map<int, real>)
    requires forall d :: d in r1 <==> d in r2
    requires forall d :: d in r1 ==> r1[d] == r2[d]
    ensures r1 == r2
  {
    assert forall d :: d in r1 <==> d in r2;
    assert forall d :: d in r1 ==> r1[d] == r2[d];
  }

  lemma RelevancesWithoutNegated(s: Server, q: Query, idf: (nat, nat) -> real)
    requires KnownWords(s, q)
    ensures var q2 := Query(q.positive - q.negative, {});
      KnownWords(s, q2)
      && (forall d :: d in Relevances(s, q, idf) <==> d in Relevances(s, q2, idf))
      && (forall d :: d in Relevances(s, q, idf) ==> Relevances(s, q, idf)[d] == Relevances(s, q2, idf)[d])
  {
    var q2 := Query(q.positive - q.negative, {});
    RelevancesCoverMatches(s, q, idf);
    RelevancesCoverMatches(s, q2, idf);
    MatchedWithoutNegated(s, q);
    RelevanceWithoutNegated(s, q, idf);
  }

  lemma MatchedWithoutNegated(s: Server, q: Query)
    ensures forall d :: Matched(s, q, d) <==> Matched(s, Query(q.positive - q.negative, {}), d)
  {
    var q2 := Query(q.positive - q.negative, {});
    forall d
      ensures Matched(s, q, d) <==> Matched(s, q2, d)
    {
      if Matched(s, q, d) {
        var w :| w in q.positive && Matches(s, q, w, d);
        assert Matches(s, q2, w, d);
      }
      if Matched(s, q2, d) {
        var w :| w in q2.positive && Matches(s, q2, w, d);
        assert Matches(s, q, w, d);
      }
    }
  }

  lemma RelevanceWithoutNegated(s: Server, q: Query, idf: (nat, nat) -> real)
    requires KnownWords(s, q)
    ensures forall d :: Relevance(s, q, idf, d) == Relevance(s, Query(q.positive - q.negative, {}), idf, d)
  {
    var q2 := Query(q.positive - q.negative, {});
    var ws := Enumerate(q.positive);
    var kept := NotNegated(q, ws);
    NotNegatedAscending(q, ws);
    AscendingIsEnumeration(kept, q2.positive);
    forall d
      ensures Relevance(s, q, idf, d) == Relevance(s, q2, idf, d)
    {
      ScoreWithoutNegated(s, q, q2, idf, ws, d);
    }
  }

  // ---------------------------------------------------------------------------
  // End to end

  /** Every document FindTopDocuments returns is matched by a positive, non-negated
      word of the parsed query and carries the relevance the query gives it. */
  lemma TopDocumentsAreMatched(s: Server, rawQuery: string, idf: (nat, nat) -> real)
    ensures var q := ParseQuery(s, rawQuery);
      var r := FindTopDocuments(s, rawQuery, idf);
      r.Ok? ==> forall i :: 0 <= i < |r.value| ==>
        && Matched(s, q, r.value[i].id)
        && r.value[i].relevance == Relevance(s, q, idf, r.value[i].id)
  {
    var q := ParseQuery(s, rawQuery);
    var r := FindTopDocuments(s, rawQuery, idf);
    if r.Ok? {
      RankedCandidatesAreMatched(s, q, idf, r.value);
    }
  }

  lemma RankedCandidatesAreMatched(s: Server, q: Query, idf: (nat, nat) -> real, r: seq<Document>)
    requires KnownWords(s, q)
    requires IsTopRanking(r, Candidates(s, q, idf))
    ensures forall i :: 0 <= i < |r| ==>
      Matched(s, q, r[i].id) && r[i].relevance == Relevance(s, q, idf, r[i].id)
  {
    TopRankingDrawsFromCandidates(r, Candidates(s, q, idf));
    forall i | 0 <= i < |r|
      ensures Matched(s, q, r[i].id) && r[i].relevance == Relevance(s, q, idf, r[i].id)
    {
      CandidateIsMatched(s, q, idf, r[i]);
    }
  }

  /** Each candidate is matched and carries the relevance the query gives it. */
  lemma CandidateIsMatched(s: Server, q: Query, idf: (nat, nat) -> real, x: Document)
    requires KnownWords(s, q)
    requires x in Candidates(s, q, idf)
    ensures Matched(s, q, x.id) && x.relevance == Relevance(s, q, idf, x.id)
  {
    var c := Candidates(s, q, idf);
    var j :| 0 <= j < |c| && c[j] == x;
  }

  /** A query made only of stop words finds nothing and throws nothing. */
  lemma StopWordQueryFindsNothing(s: Server, rawQuery: string, idf: (nat, nat) -> real)
    requires forall t :: t in SplitIntoWords(rawQuery) ==> IsStopWord(s, t)
    ensures FindTopDocuments(s, rawQuery, idf) == Ok([])
  {
    assert SplitIntoWordsNoStop(s, rawQuery) == [];
    assert ParseQuery(s, rawQuery) == Query({}, {});
  }

  /** A document added under a new id is a candidate for any query that asks for one
      of its non-stop words positively and not negatively. */
  lemma AddedDocumentIsCandidate(s: Server, id: int, text: string, q: Query, w: string, idf: (nat, nat) -> real)
    requires w in SplitIntoWordsNoStop(s, text)
    requires w in q.positive && w !in q.negative
    requires KnownWords(AddDocument(s, id, text), q)
    ensures var c := Candidates(AddDocument(s, id, text), q, idf);
      exists i :: 0 <= i < |c| && c[i].id == id
  {
    var words := SplitIntoWordsNoStop(s, text);
    var r := AddDocument(s, id, text);
    assert r.index == AddOccurrences(s.index, words, id, 1.0 / (|words| as real));
    assert Has(r.index, w, id);
    assert Matches(r, q, w, id);
    var c := Candidates(r, q, idf);
    assert Matched(r, q, id);
  }
}
