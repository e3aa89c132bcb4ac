# search-server in Dafny

A model of the search engine in `search-server/main.cpp`. The engine is a TF-IDF search
server with three parts:

- **Stop words.** A set of words that ingestion and queries ignore.
- **Inverted index.** Maps each word to the term frequency of that word in every
  document that contains it.
- **Query engine.** Parses a raw query into positive words and minus-prefixed negative
  words. It scores documents by the sum of `tf * idf` over the positive words, sorts
  them by relevance and returns at most `MAX_RESULT_DOCUMENT_COUNT` (5) of them.

The model is made of pure functions over immutable values. `SearchServer.Server` holds
the stop words, the index and the document count. Every operation maps an old server to
a new one, or to a query result.

| file | module | models |
|---|---|---|
| `tokenizer.dfy` | `Tokenizer` | `SplitIntoWords`: a recursive definition over the pending word and the unread text, plus the character loop of the source as a method |
| `ordering.dfy` | `Ordering` | the iteration order of `std::set<std::string>` (lexicographic), and a fixed ascending order for the ids of `std::unordered_map<int, double>` |
| `ranking.dfy` | `Ranking` | `Document`, `MAX_RESULT_DOCUMENT_COUNT`, and sorting by descending relevance followed by `resize` |
| `server.dfy` | `SearchServer` | `SetStopWords`, `IsStopWord`, `SplitIntoWordsNoStop`, `AddDocument`, `ParseQuery`, `FindAllDocuments`, `FindTopDocuments` and the `Query` struct |

Modelling decisions:

- **Natural logarithm.** `CalculateIdf` computes `log(document_count_ / df)` in floating
  point. Every query operation instead takes a parameter `idf(documentCount,
  documentFrequency)`. All properties hold for any IDF that, like the source's, depends
  only on those two numbers.
- **Out-of-range errors.** `.at(word)` throws `std::out_of_range` for a positive query
  word that is not in the index. This is `Outcome.OutOfRange(word)`. The reported word
  is the first missing positive word in `std::set` order, which is the one the source
  throws on.
- **Unordered ids.** `std::unordered_map` iteration order is unspecified, so the
  candidate list is built in ascending id order. `std::sort` is not stable, so the
  contracts state `Ranking.IsTopRanking`, which every tie order satisfies. They do not
  state one particular order among equal relevances.
- **Term frequencies.** These are `real` values. `1.0 / words.size()` is exact here.
- **Negative words, as written.** The gate at `search-server/main.cpp:132` tests whether
  the *positive word being scored* is itself a negative word. It does not test whether
  the document contains a negative word. The model keeps this behaviour.
  `SearchServer.NegativeOnlyWordsIgnored` proves what follows from it: a negative word
  that is not also queried positively changes no result. So a document that contains
  such a word is not excluded.
- **A bare `-`.** The source puts the empty word `""` among the negative words. The
  model does the same, following the code.

## Model

| member | source | states |
|---|---|---|
| Tokenizer.SplitIntoWords | search-server/main.cpp:159-185 | every token is non-empty and contains no space |
| Tokenizer.SplitIntoWordsScan | search-server/main.cpp:159-185 | the character loop (flush on a space, extend otherwise, flush at the end) returns exactly `SplitIntoWords(text)` |
| Tokenizer.SplitKeepsAllButSpaces | search-server/main.cpp:159-185 | concatenating the tokens gives the text with its spaces removed: no other character is lost, reordered or invented |
| Tokenizer.SplitEmptyIffBlank | search-server/main.cpp:159-185 | no token is produced if and only if the text is empty or all spaces |
| Tokenizer.SplitJoinRoundTrip | search-server/main.cpp:159-185 | splitting space-free words joined by single spaces gives the same words back |
| Tokenizer.SplitAcrossSpace | search-server/main.cpp:159-185 | the tokens of `a + " " + b` are the tokens of `a` followed by those of `b` |
| SearchServer.SetStopWords | search-server/main.cpp:30-36 | the stop words become the old ones plus every token of the text; index and count are unchanged |
| SearchServer.SetStopWordsTwice | search-server/main.cpp:30-36 | two calls give the same stop words as one call on both texts joined by a space |
| SearchServer.SetStopWordsIdempotent | search-server/main.cpp:30-36 | setting the same text twice is the same as setting it once |
| SearchServer.SetStopWordsOnEmptyIndex | search-server/main.cpp:30-36 | stop words set before any document is added keep the server consistent |
| SearchServer.WithoutStopWords | search-server/main.cpp:86-97 | the result is an in-order subsequence of the tokens, has no stop word, and keeps every occurrence of every other word |
| SearchServer.SplitIntoWordsNoStop | search-server/main.cpp:86-97 | the result is an in-order subsequence of the tokens of the text, made of non-empty space-free words, with no stop word and every occurrence of every other word kept |
| SearchServer.WithoutStopWordsIsUnique | search-server/main.cpp:86-97 | any subsequence with those three properties is the filtered list itself |
| SearchServer.AddOccurrences | search-server/main.cpp:42-45 | after the loop, the index has an entry exactly where it had one before or where a word of the document meets its id |
| SearchServer.AddOccurrencesTf | search-server/main.cpp:42-45 | each occurrence of a word adds the increment once to that word's entry for the id; no other entry changes |
| SearchServer.AddDocument | search-server/main.cpp:38-48 | the count grows by one; the id gains entries exactly under the non-stop words of the text and other documents' entries are untouched; each word's term frequency for the id grows by its occurrences over the number of non-stop words, so a repeated id accumulates as `+=` does; an all-stop-word text leaves the index unchanged |
| SearchServer.IndexedShares | search-server/main.cpp:40-45 | indexing under a new id gives each word `occurrences / words.size()`; every other document's entries stay as they were |
| SearchServer.AddDocumentKeepsConsistent | search-server/main.cpp:38-48 | ingestion indexes no stop word and creates no empty row |
| SearchServer.AddDocumentsKeepConsistent | search-server/main.cpp:205-209 | adding documents one after another, in order, keeps a consistent server consistent |
| SearchServer.BuiltServerIsConsistent | search-server/main.cpp:200-212 | a fresh server given its stop words and then any sequence of documents indexes no stop word, has no empty row, and counts every document |
| SearchServer.TermFrequenciesSumToOne | search-server/main.cpp:38-48 | the term frequencies of a newly added document, summed over all index words, equal one |
| SearchServer.ParseWords | search-server/main.cpp:102-112 | a minus-prefixed token adds its remainder to the negative words; any other token adds itself to the positive words; nothing else is added |
| SearchServer.ParseQuery | search-server/main.cpp:99-114 | every non-stop token of the query lands in exactly one of the two sets, in the form the source stores it: a minus-prefixed token stripped of its minus among the negatives, any other token among the positives; nothing else is added |
| SearchServer.ParseQueryMinusCases | search-server/main.cpp:104-107 | no positive word starts with `-`; a lone `-` puts the empty word among the negatives |
| SearchServer.FirstUnknownIsFirstMissing | search-server/main.cpp:126-130 | the word reported as missing is the least missing positive word in set order |
| SearchServer.Accumulate | search-server/main.cpp:126-137 | after visiting some positive words, a document has a relevance if and only if one of them matches it; the relevance is the running sum of its `tf * idf` contributions |
| SearchServer.RelevancesCoverMatches | search-server/main.cpp:121-138 | the documents with a relevance are exactly those containing a positive, non-negated query word, each scored by the sum over the positive words |
| SearchServer.Candidates | search-server/main.cpp:140-143 | one document per matched id, each id once, with its relevance |
| SearchServer.FindAllDocuments | search-server/main.cpp:121-157 | throws if and only if a positive word is missing from the index, naming the first such word; otherwise returns a top ranking of the candidates with distinct ids |
| SearchServer.FindTopDocuments | search-server/main.cpp:50-73 | a query with no words gives an empty result; otherwise it throws in exactly the same cases as FindAllDocuments, naming the least missing positive word in set order, and otherwise returns a top ranking of the candidates |
| SearchServer.TopDocumentsAreMatched | search-server/main.cpp:50-73 | every returned document contains a positive, non-negated query word and carries the relevance the query gives it |
| SearchServer.StopWordQueryFindsNothing | search-server/main.cpp:52-57 | a query made only of stop words returns nothing and throws nothing |
| SearchServer.AddedDocumentIsCandidate | search-server/main.cpp:126-143 | once added, a document is a candidate for every query that asks for one of its non-stop words positively and not negatively |
| SearchServer.NegativeOnlyWordsIgnored | search-server/main.cpp:130-137 | the result equals that of the query keeping only the negative words that are also positive, so negative-only words change nothing |
| SearchServer.NegatedPositiveWordsDropped | search-server/main.cpp:130-137 | a word that is both positive and negative counts as if absent: the relevances are those of the remaining positive words with no negative word |
| Ranking.Insert | search-server/main.cpp:145-149 | inserting into a list sorted by descending relevance keeps it sorted and adds exactly one element |
| Ranking.SortAndCap | search-server/main.cpp:145-154 | the result is a top ranking: `min(n, 5)` documents, sorted, drawn from the input, and none left out is more relevant than the last one kept; distinct ids stay distinct |
| Ranking.SortByRelevance | search-server/main.cpp:145-149 | the result is sorted by descending relevance and is a permutation (same multiset) of the input |
| Ranking.SortAndCapOfRanking | search-server/main.cpp:61-70 | in the model, the second sort and resize in FindTopDocuments change nothing on a result of FindAllDocuments; `std::sort` may still reorder equal relevances, which stays a top ranking |
| Ranking.ResortedRankingIsTop | search-server/main.cpp:61-70 | any re-sort of a top ranking, whatever order it picks among equal relevances, is still a top ranking of the same candidates |
| Ranking.SortAndCapIdempotent | search-server/main.cpp:145-154 | sorting and capping twice equals doing it once |
| Ranking.TopRankingDrawsFromCandidates | search-server/main.cpp:145-154 | every document of a top ranking is one of the candidates |
| Ordering.Enumerate | search-server/main.cpp:126 | the positive words are visited each exactly once, in strictly ascending lexicographic order |
| Ordering.AscendingIsEnumeration | search-server/main.cpp:126 | any strictly ascending listing of a word set is that visiting order |
| Ordering.EnumerateIds | search-server/main.cpp:140 | the matched ids are listed each exactly once, in ascending order |

## Left out

- Console input and output (`ReadLine`, `ReadLineWithNumber`, `main`, `search-server/main.cpp:187-227`) are I/O glue and are not modelled. Of `CreateSearchServer`, only the order of its calls (stop words first, then the documents) is kept, as `SearchServer.AddDocuments`; the reading of lines and `stoi` are left out.
- Strings are sequences of Unicode characters, while the source works on the bytes of `std::string`. The model assumes the text is valid UTF-8. Under that assumption the two agree: neither `' '` nor `'-'` can occur inside a multibyte UTF-8 sequence, so `Tokenizer.SplitIntoWords` (the space test) and `SearchServer.ParseWords` (`word[0] == '-'`, `substr(1)`) cut the text at the same places, and UTF-8 byte order is code-point order, so `Ordering.Below` orders words as `std::set<std::string>` does. Byte strings that are not valid UTF-8 cannot be represented.
- `CalculateIdf`: the logarithm and floating-point division are replaced by the `idf` parameter. Properties that depend on the shape of `log`, such as a rarer word weighing more, are not stated.
- Floating-point rounding of term frequencies and relevances is not modelled: they are exact `real` values.
- `document_ids_count_` (`search-server/main.cpp:77`) is declared but never used, so it is not modelled.
- `document_count_` is an `int` in the source. It is a `nat` here, so overflow after 2^31 - 1 documents is not modelled.
- The iteration order of `std::unordered_map` is replaced by ascending ids. The tie order of the unstable `std::sort` is left unspecified through `Ranking.IsTopRanking`. `Ranking.SortAndCap` is one admissible outcome.
- IsStopWord has no row of its own: it is the membership test that `SearchServer.WithoutStopWords` states its contract with.
