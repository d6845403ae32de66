# comp4321 indexer and phrase search, modelled in Dafny

This project models two parts of the comp4321 search engine:

- **The indexer** (`database/indexer.go`). The bolt database becomes a set of maps held by the class `Indexing.Indexer`:
  - the identifier tables UrlToPageId/PageIdToUrl and WordToWordId/WordIdToWord, each pair an `IdMap` with the bolt sequence of its forward bucket;
  - ForwardTable;
  - InvertedTable;
  - PageInfo.

  The in-memory staging of the inverted index (`tempInverted`, `wordIdList`) is two more fields. Each bolt transaction is one atomic step of a method. The goroutines the source starts run one after another.
- **Phrase search** (`retrieval/phrase.go`). A query is split into bigrams. Each bigram is matched by shifting the second term's offsets one to the left and intersecting them with the first term's offsets. The per-bigram document lists are then intersected, smallest first. The store is a read-only `Retrieval.Viewer` value that holds the posting lists and position lists.

`Sorting.SortBy` stands for Go's `sort.Slice`. It is used in both places.

Every imperative operation is a method. Most methods are proved equal to a function, or to a new state given by a function, and the properties of those functions are proved as lemmas. The loops that index a page's words (`IndexWords`, `UpdateOrAddPage`) are not given by one function: their contracts relate the new state to the old one instead. The word table keeps its earlier ids and gains exactly the page's words; its sequence only grows, and every new word takes an id above the old sequence. The page is staged exactly under its own words: a posting list gains the page only for one of its words, and a new posting list holds the page. `wordIdList` keeps its old ids in place and only grows at the end. The page's bucket gains exactly its words with their tfs, and the earlier words it does not rewrite keep their tfs. Other pages' entries do not change.

ForwardTable uses one key per page in two ways:
- `updateForward` (indexer.go:162) makes it a nested bucket of term frequencies.
- `setMaxTf` (indexer.go:182) puts the scalar maxTf under the same key.

In bolt each of these is refused once the other is in place:
- A `Put` on a key that holds a nested bucket fails.
- `CreateBucketIfNotExists` on a key that holds a value fails, and its error is discarded. The following `Put` on the nil bucket panics inside `Batch`. `Batch` recovers once and runs the function again on its own in `db.Update`, where the panic is raised again. It escapes the indexing goroutine (indexer.go:207-209) and ends the process. A URL first stored with no words and later stored again with words reaches this.

The first error is discarded. The model keeps one map of `ForwardEntry = Bucket(tfs) | Scalar(maxTf)` and refuses the write in both cases; the second case is a crash in the source (see "## Left out"). As a result, `getMaxTf` of a page that has forward entries is `None`: a bolt `Get` of a bucket key reads nothing.

`DropAll` deletes and recreates the tables but leaves the in-memory staging alone. Staged word ids then refer to ids that the fresh sequence hands out again, to other words. The model keeps this behaviour: `DropAll` states that the staging is unchanged.

## Model

| member | source | states |
|---|---|---|
| `Indexing.Resolve` | database/indexer.go:58-87 | getId: a known text keeps its id and nothing is written; an unknown text gets the sequence's next value, both directions are written and the sequence advances; the fresh id was never handed out, and a valid table stays valid and only grows |
| `Indexing.ResolveTwice` | database/indexer.go:63-73 | resolving a text a second time returns the same id and writes nothing |
| `Indexing.IdsAreDistinct` | database/indexer.go:73-85 | in a valid table, distinct texts have distinct ids |
| `Indexing.Indexer.constructor` | database/indexer.go:26-42 | a loaded store keeps the tables the file already holds (any valid identifier tables, any forward, inverted and page tables) and starts with nothing staged |
| `Indexing.Indexer.DropAll` | database/indexer.go:44-53 | every table is empty and its sequence is back at zero; the staging is untouched |
| `Indexing.Indexer.GetId` | database/indexer.go:58-87 | the id returned and the table afterwards are those of `Resolve`; no other table changes |
| `Indexing.Indexer.GetOrCreatePageId` | database/indexer.go:89-92 | `Resolve` on the URL tables, nothing else changes |
| `Indexing.Indexer.GetOrCreateWordId` | database/indexer.go:94-98 | `Resolve` on the word tables, nothing else changes |
| `Indexing.StagingStep` | database/indexer.go:111-118 | adding a page to a word's posting list, and appending the word id only when it had no posting list, keeps `wordIdList` duplicate-free with exactly the keys of `tempInverted` |
| `Indexing.Indexer.UpdateInverted` | database/indexer.go:100-121 | the word is resolved; only its staged posting list changes, gaining the page; `wordIdList` grows by the word id exactly when the word had no posting list; the staging invariant holds |
| `Indexing.PermutedStagingValid` | database/indexer.go:124-129 | sorting `wordIdList` (a permutation) keeps the staging invariant |
| `Indexing.MergedStep` | database/indexer.go:143-153 | merging one more word id adds its staged pages to that word's inverted entry and changes no other entry |
| `Indexing.Flushed` | database/indexer.go:123-156 | after the flush the inverted table has the old words plus the staged ones; every earlier pair is kept, every staged pair is present and nothing else is added |
| `Indexing.FlushTwice` | database/indexer.go:146 | the staging is not cleared, and flushing again changes nothing |
| `Indexing.Indexer.FlushInverted` | database/indexer.go:123-156 | `wordIdList` ends sorted ascending and is a permutation of itself before; the inverted table is `Flushed` of the old one; the staging is unchanged |
| `Indexing.Indexer.UpdateForward` | database/indexer.go:158-166 | the page's bucket maps the word id to tf, overwriting an earlier value; no other page changes; a page key that holds the scalar maxTf refuses the write |
| `Indexing.Indexer.ContainsUrl` | database/indexer.go:168-177 | true iff the URL has a page id, that is, iff resolving it would allocate nothing |
| `Indexing.Indexer.SetMaxTf` | database/indexer.go:179-185 | the scalar is stored under the page id unless that key holds the page's bucket; `GetMaxTf` then returns it, or `None` when it was refused |
| `Indexing.Indexer.GetMaxTf` | database/indexer.go:187-194 | `Some` iff the page id key holds the scalar, which it returns; `None` when the key holds the page's bucket |
| `Indexing.Indexer.IndexWord` | database/indexer.go:202-210 | the two tasks for one word: the word table afterwards is that of `Resolve` (old ids kept, the word's id distinct from other words' ids), the page is staged under that id only, the id joins `wordIdList` exactly when it had no posting list, and its tf is written to the page's bucket unless the key holds the scalar; no other table changes |
| `Indexing.Indexer.IndexWords` | database/indexer.go:200-212 | after all words, the word table keeps its earlier ids and gains exactly the page's words, its sequence only grows and each new word's id is above the old sequence; each word has a staged posting holding the page; only this page is added to staged lists, and only to lists of its own words; every new staged list holds the page; `wordIdList` is the old list followed by new ids; other pages' forward entries are unchanged; the page's bucket holds exactly its earlier keys plus the page's words, each word with its tf and each other earlier key with its earlier tf, or is the untouched scalar |
| `Indexing.Indexer.UpdateOrAddPage` | database/indexer.go:198-220 | the URL is contained afterwards; the word table keeps its earlier ids and gains exactly the document's words, its sequence only grows and each new word's id is above the old sequence; PageInfo maps its page id to the document; the page is staged under every one of its words and under no other word, and every new staged list holds the page; `wordIdList` is the old list followed by new ids; its bucket gains exactly its words with their tfs, and earlier keys that are not its words keep their tfs; other pages' entries are unchanged; maxTf is readable exactly when the page has no bucket |
| `Sorting.SortBy` | retrieval/phrase.go:57-59 | the result is ordered by the key and is a permutation of the input (also used for database/indexer.go:127-129) |
| `Retrieval.GetPositionIndices` | retrieval/phrase.go:27-28 | the offsets of a term in a document, ascending; empty when the term does not occur there |
| `Retrieval.Intersect` | retrieval/phrase.go:34 | the ids present in both ascending lists, ascending |
| `Retrieval.BooleanFilter` | retrieval/phrase.go:23 | the documents whose posting lists hold every term, ascending; an empty query gives none; a one-term query gives that term's posting list |
| `Retrieval.SplitToBigrams` | retrieval/phrase.go:13-19 | max(n-1, 0) bigrams, the k-th being (query[k], query[k+1]) |
| `Retrieval.DecrementAll` | retrieval/phrase.go:30-32 | every offset of the array is one less, in place |
| `Retrieval.AlignedCommon` | retrieval/phrase.go:27-34 | the common offsets of the first term's list and the second's shifted list |
| `Retrieval.AdjacentIffCommon` | retrieval/phrase.go:30-35 | the common offsets are non-empty iff the two terms occur at consecutive offsets, the first term first |
| `Retrieval.AdjacentOffsets` | retrieval/phrase.go:30-35 | the two terms are adjacent iff some offset p of the first has p + 1 among the second's offsets |
| `Retrieval.KeepAdjacent` | retrieval/phrase.go:26-38 | the kept candidates are among the candidates, no more of them, and ascending when the candidates are |
| `Retrieval.KeepAdjacentMembers` | retrieval/phrase.go:26-38 | a candidate is kept iff it holds the bigram as a phrase |
| `Retrieval.KeepAdjacentIsSubsequence` | retrieval/phrase.go:26-38 | the kept candidates are a subsequence of the candidates, at increasing places |
| `Retrieval.PhraseMatchesMembers` | retrieval/phrase.go:22-41 | a document is returned iff it holds both terms and some offset p of the first has p + 1 among the second's; the result is a subsequence of `booleanFilter([n1, n2])` |
| `Retrieval.HasPhrase` | retrieval/phrase.go:22-41 | the loop over the candidates returns exactly the bigram's matches |
| `Retrieval.BigramOrderMatters` | retrieval/phrase.go:30-34 | in a two-document store, ("quick", "brown") matches one document and ("brown", "quick") none |
| `Retrieval.IntersectAllMembers` | retrieval/phrase.go:61-68 | folding intersect over the lists keeps exactly the ids present in every list |
| `Retrieval.AscendingUnique` | retrieval/phrase.go:57-68 | two ascending lists with the same elements are equal, so the fold's result does not depend on the order of the lists |
| `Retrieval.IntersectAllReorder` | retrieval/phrase.go:57-68 | sorting the lists by size does not change the fold's result |
| `Retrieval.PhraseSearchMembers` | retrieval/phrase.go:50-70 | a query of two or more terms returns exactly the documents that match every bigram |
| `Retrieval.PhraseSearchWithinEach` | retrieval/phrase.go:57-68 | the result is within every bigram's matches, the smallest one included |
| `Retrieval.CollectMatches` | retrieval/phrase.go:51-55 | the k-th list is the matches of the k-th bigram |
| `Retrieval.IntersectInOrder` | retrieval/phrase.go:61-68 | the loop computes the left fold of intersect |
| `Retrieval.SearchPhrase` | retrieval/phrase.go:45-71 | the result is `PhraseSearch`; a query of at most one term gives `booleanFilter(query)` |
| `Retrieval.PhraseSearchExample` | retrieval/phrase.go:45-71 | "quick brown fox" is found in the document that holds it as a phrase and not in the one that holds the three words apart |

## Left out

- Opening the database file and closing it (the `bolt.Open` call in `LoadIndexer`, and `Close`), bolt transactions and `FillPercent` are not modelled. These belong to the storage engine. The constructor takes the tables the file holds as parameters; `CreateBucketIfNotExists` keeps them. Each transaction is taken to apply atomically to maps.
- Concurrency is not modelled: the goroutines, the `WaitGroup` and the mutex. The tasks run one after another, in the map's order (an arbitrary choice in the model). Two concurrent `getId` calls on the same new text could both allocate an id, because the lookup and the write are separate transactions. `UpdateOrAddPage` itself starts two such calls for every word (indexer.go:204 and indexer.go:208). A new word can therefore be staged under one id and written to the page's bucket under another, WordToWordId then keeps only the id written last, while WordIdToWord maps both ids to the word. The model does not capture that race: each word gets one id, used by both tasks. `FlushInverted` calls `wg.Done()` inside each `Batch` function (indexer.go:151), before that batch commits, so `wg.Wait()` can return while the last merges are still uncommitted. The model's `inverted == Flushed(...)` describes the table once every batch has committed.
- The goroutine closures capture the loop variables `word`/`tf` (indexer.go:202-210) and `id` (indexer.go:146). The model assumes per-iteration semantics: each word and each id is processed exactly once, with its own values. Under pre-1.22 Go semantics the closures could all see the last iteration's values.
- Ids, term frequencies and maxTf are `nat`/`int`. The byte encodings (`intToByte`, `uint64ToByte`, `byteToUint64`, `byteToInt`) are not part of this model.
- The document is stored as a `Document` value, not as its JSON encoding.
- Keys are assumed non-empty and within bolt's key-size limit. bolt refuses to `Put` an empty key, so a `getId` of "" would take a new sequence value on every call and write only the inverse direction. The model treats "" like any other text.
- Indexing.Indexer.GetMaxTf: returns `None` for an absent key and for a key that holds the page's bucket. In both cases bolt's `Get` returns nil and the source calls `byteToInt` on it. What that returns depends on code that is not part of this model.
- Indexing.Indexer.UpdateForward: when the page key holds the scalar maxTf, the source panics (the nil-bucket `Put`, raised again by `Batch`'s retry) and the process ends. The model refuses the write: the word id is still resolved and the forward table is unchanged.
- Indexing.Indexer.UpdateOrAddPage: for the same reason, re-storing a URL first stored with no words, now with words, ends the process in the source. The model refuses the forward writes and goes on.
- The progress printing in `FlushInverted` is left out.
- `UpdateAdjList`, `UpdateTermWeights` and `UpdatePageRank` are left out because they are empty.
- `booleanFilter`, `intersect` and `Viewer.GetPositionIndices` are not part of this model. The model defines stand-ins for them:
  - a fold of a two-pointer merge over posting lists;
  - the merge itself;
  - a lookup in a `Viewer` value that holds ascending lists.

  Their contracts are what phrase search relies on: ascending lists and set intersection.
- Vector-space ranking (`RetrieveVSpace`) is not part of this model. It works on floating point.
- Offsets are unbounded integers. If the store hands out unsigned offsets, `pos2[i]--` on offset 0 wraps around, and the decremented list is no longer ascending. A two-pointer `intersect` could then miss a match, for example first-term offsets [2] against second-term offsets [0, 3]. The element types are declared in code that is not part of this model, so this is not claimed as a defect.
- `hasPhrase` decrements the slice that `GetPositionIndices` returns. If the viewer shared that slice with its own storage, the store would change. For a bigram whose two terms are equal, both calls at phrase.go:27-28 could then return the same slice: `pos2[i]--` would also shift `pos1`, and `intersect(pos1, pos2)` would be non-empty for every candidate. The model decrements a fresh copy, so it keeps such a candidate only when the term occurs at two consecutive offsets.
- `sort.Slice` is not stable. The model sorts by insertion, which yields one of the orders `sort.Slice` may produce. The results depend only on "sorted and a permutation".
- The HTTP history controller, the command-line printers and the result-view struct are left out. They are I/O or plain data.
