/**
 Ranking of scored documents: sort by relevance, highest first, and keep at most
 `MaxResultDocumentCount` of them. `std::sort` is not stable, so the order among equal
 relevances is not part of any contract here: `IsTopRanking` states what every correct
 sort-then-truncate produces, and `SortAndCap` is one such computation.
 */
module Ranking {

  /** MAX_RESULT_DOCUMENT_COUNT of the source. */
  const MaxResultDocumentCount: nat := 5

  /** A document id with the relevance computed for one query. */
  datatype Document = Document(id: int, relevance: real)

  function Min(a: nat, b: nat): nat
  {
    if a <= b then a else b
  }

  predicate SortedByRelevance(ds: seq<Document>)
  {
    forall i, j :: 0 <= i < j < |ds| ==> ds[i].relevance >= ds[j].relevance
  }

  predicate DistinctIds(ds: seq<Document>)
  {
    forall i, j :: 0 <= i < j < |ds| ==> ds[i].id != ds[j].id
  }

  /** `r` is what sorting `candidates` by descending relevance and keeping the first
      `MaxResultDocumentCount` may yield, whatever the order chosen among ties: as many
      documents as allowed, sorted, taken from the candidates, and none of the dropped
      candidates more relevant than the last one kept. */
  predicate IsTopRanking(r: seq<Document>, candidates: seq<Document>)
  {
    && |r| == Min(|candidates|, MaxResultDocumentCount)
    && SortedByRelevance(r)
    && multiset(r) <= multiset(candidates)
    && forall d :: d in multiset(candidates) - multiset(r) ==>
         r != [] && d.relevance <= r[|r| - 1].relevance
  }

  /** Places `d` in front of the first document it is at least as relevant as. */
  function Insert(d: Document, ds: seq<Document>): (r: seq<Document>)
    requires SortedByRelevance(ds)
    ensures SortedByRelevance(r)
    ensures multiset(r) == multiset(ds) + multiset{d}
    ensures forall x :: x in r ==> x == d || x in ds
  {
    if ds == [] || d.relevance >= ds[0].relevance then
      PrependKeepsSorted(d, ds);
      [d] + ds
    else
      var rest := Insert(d, ds[1..]);
      InsertBehindHead(d, ds, rest);
      [ds[0]] + rest
  }

  /** When `d` ranks below the head, inserting it into the tail and putting the head
      back in front does the insertion. */
  lemma InsertBehindHead(d: Document, ds: seq<Document>, rest: seq<Document>)
    requires SortedByRelevance(ds) && ds != [] && d.relevance < ds[0].relevance
    requires SortedByRelevance(rest)
    requires multiset(rest) == multiset(ds[1..]) + multiset{d}
    requires forall x :: x in rest ==> x == d || x in ds[1..]
    ensures SortedByRelevance([ds[0]] + rest)
    ensures multiset([ds[0]] + rest) == multiset(ds) + multiset{d}
    ensures forall x :: x in [ds[0]] + rest ==> x == d || x in ds
  {
    assert ds == [ds[0]] + ds[1..];
    assert forall x :: x in rest ==> x.relevance <= ds[0].relevance;
    PrependKeepsSorted(ds[0], rest);
  }

  lemma PrependKeepsSorted(x: Document, ds: seq<Document>)
    requires SortedByRelevance(ds)
    requires forall y :: y in ds ==> y.relevance <= x.relevance
    ensures SortedByRelevance([x] + ds)
  {
    var r := [x] + ds;
    forall i, j | 0 <= i < j < |r|
      ensures r[i].relevance >= r[j].relevance
    {
      assert r[j] == ds[j - 1];
      if i > 0 {
        assert r[i] == ds[i - 1];
      }
    }
  }

  /** The documents of `ds` by descending relevance. */
  function SortByRelevance(ds: seq<Document>): (r: seq<Document>)
    ensures SortedByRelevance(r)
    ensures multiset(r) == multiset(ds)
  {
    if ds == [] then []
    else
      assert ds == [ds[0]] + ds[1..];
      Insert(ds[0], SortByRelevance(ds[1..]))
  }

  /** `vector::resize` to `k` when the vector is longer. */
  function Truncate(ds: seq<Document>, k: nat): (r: seq<Document>)
  {
    if |ds| > k then ds[..k] else ds
  }

  /** Sorting and capping, as done at the end of both FindAllDocuments and
      FindTopDocuments. */
  function SortAndCap(ds: seq<Document>): (r: seq<Document>)
    ensures IsTopRanking(r, ds)
    ensures DistinctIds(ds) ==> DistinctIds(r)
  {
    var sorted := SortByRelevance(ds);
    var r := Truncate(sorted, MaxResultDocumentCount);
    TruncatedSortIsTop(sorted, ds);
    if DistinctIds(ds) then
      SubmultisetKeepsDistinctIds(r, ds);
      r
    else
      r
  }

  lemma TruncatedSortIsTop(sorted: seq<Document>, ds: seq<Document>)
    requires SortedByRelevance(sorted)
    requires multiset(sorted) == multiset(ds)
    ensures IsTopRanking(Truncate(sorted, MaxResultDocumentCount), ds)
  {
    var k := Min(|sorted|, MaxResultDocumentCount);
    var r := Truncate(sorted, MaxResultDocumentCount);
    assert r == sorted[..k];
    assert |sorted| == |ds| by {
      assert |multiset(sorted)| == |multiset(ds)|;
    }
    assert sorted == r + sorted[k..];
    assert multiset(sorted) == multiset(r) + multiset(sorted[k..]);
    forall d | d in multiset(ds) - multiset(r)
      ensures r != [] && d.relevance <= r[|r| - 1].relevance
    {
      assert d in multiset(sorted[k..]);
      var j :| 0 <= j < |sorted[k..]| && sorted[k..][j] == d;
      assert sorted[k + j] == d;
    }
  }

  lemma {:induction false} SortSortedIsIdentity(ds: seq<Document>)
    requires SortedByRelevance(ds)
    ensures SortByRelevance(ds) == ds
  {
    if ds != [] {
      SortSortedIsIdentity(ds[1..]);
      assert ds == [ds[0]] + ds[1..];
    }
  }

  /** A list already sorted and short enough is left as it is by the model's sort:
      the second sort and resize in FindTopDocuments change nothing here. With
      `std::sort`, which is not stable, this holds up to the order among equal
      relevances, and the result is still a top ranking. */
  lemma SortAndCapOfRanking(ds: seq<Document>)
    requires SortedByRelevance(ds)
    requires |ds| <= MaxResultDocumentCount
    ensures SortAndCap(ds) == ds
  {
    SortSortedIsIdentity(ds);
  }

  /** Any sort of a top ranking, whatever order it picks among equal relevances, is
      still a top ranking of the same candidates: the second `std::sort` in
      FindTopDocuments cannot spoil the result. */
  lemma ResortedRankingIsTop(r: seq<Document>, r2: seq<Document>, candidates: seq<Document>)
    requires IsTopRanking(r, candidates)
    requires SortedByRelevance(r2)
    requires multiset(r2) == multiset(r)
    ensures IsTopRanking(r2, candidates)
  {
    assert |r2| == |r| by {
      assert |multiset(r2)| == |multiset(r)|;
    }
    if r2 != [] {
      var last := r2[|r2| - 1];
      assert last in multiset(r);
      var k :| 0 <= k < |r| && r[k] == last;
      assert last.relevance >= r[|r| - 1].relevance;
    }
  }

  lemma SortAndCapIdempotent(ds: seq<Document>)
    ensures SortAndCap(SortAndCap(ds)) == SortAndCap(ds)
  {
    SortAndCapOfRanking(SortAndCap(ds));
  }

  lemma {:induction false} DistinctIdsCountAtMostOne(c: seq<Document>, x: Document)
    requires DistinctIds(c)
    ensures multiset(c)[x] <= 1
  {
    if c != [] {
      assert c == [c[0]] + c[1..];
      DistinctIdsCountAtMostOne(c[1..], x);
      if c[0] == x {
        assert x !in c[1..] by {
          forall k | 0 <= k < |c[1..]|
            ensures c[1..][k] != x
          {
            assert c[1..][k] == c[k + 1];
          }
        }
      }
    }
  }

  lemma RepeatedElementCountsTwice(r: seq<Document>, i: int, j: int)
    requires 0 <= i < j < |r| && r[i] == r[j]
    ensures multiset(r)[r[i]] >= 2
  {
    assert r == r[..j] + r[j..];
    assert r[i] in r[..j];
    assert r[j] == r[j..][0];
  }

  /** Taking documents from a list with distinct ids, each at most as often as it
      occurs there, keeps the ids distinct. */
  lemma SubmultisetKeepsDistinctIds(r: seq<Document>, c: seq<Document>)
    requires multiset(r) <= multiset(c)
    requires DistinctIds(c)
    ensures DistinctIds(r)
  {
    forall i, j | 0 <= i < j < |r|
      ensures r[i].id != r[j].id
    {
      if r[i].id == r[j].id {
        assert r[i] in multiset(c) && r[j] in multiset(c);
        var a :| 0 <= a < |c| && c[a] == r[i];
        var b :| 0 <= b < |c| && c[b] == r[j];
        assert a == b;
        RepeatedElementCountsTwice(r, i, j);
        DistinctIdsCountAtMostOne(c, r[i]);
        assert false;
      }
    }
  }

  /** Every document of a top ranking is one of the candidates. */
  lemma TopRankingDrawsFromCandidates(r: seq<Document>, candidates: seq<Document>)
    requires IsTopRanking(r, candidates)
    ensures forall i :: 0 <= i < |r| ==> r[i] in candidates
  {
    forall i | 0 <= i < |r|
      ensures r[i] in candidates
    {
      assert r[i] in multiset(r);
    }
  }
}
