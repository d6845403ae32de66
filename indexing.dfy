/** The ingestion side of the index (database/indexer.go): identifier tables,
    the forward index, the staged and flushed inverted index and the page
    metadata. Each bolt bucket is a map; each bolt transaction is one atomic
    step of a method; the goroutines of the source run one after another. */
module Indexing {
  import Sorting

  /** A parsed web document as handed over by the crawler. */
  datatype Document = Document(uri: string, title: string, words: map<string, int>, maxTf: int)

  datatype Option<T> = None | Some(value: T)

  /** A text <-> id table pair (UrlToPageId/PageIdToUrl or
      WordToWordId/WordIdToWord) with the bolt sequence of its forward bucket. */
  datatype IdMap = IdMap(toId: map<string, nat>, toText: map<nat, string>, sequence: nat)

  /** The result of resolving a text: the table afterwards and the text's id. */
  datatype Resolution = Resolution(table: IdMap, id: nat)

  /** The two directions are inverse to each other and every id was handed
      out by the sequence (bolt's NextSequence starts at 1). */
  ghost predicate IdMapValid(t: IdMap) {
    && (forall s :: s in t.toId ==> t.toId[s] in t.toText && t.toText[t.toId[s]] == s)
    && (forall i :: i in t.toText ==> t.toText[i] in t.toId && t.toId[t.toText[i]] == i)
    && (forall i :: i in t.toText ==> 1 <= i <= t.sequence)
  }

  /** `t'` keeps every id that `t` handed out. */
  ghost predicate Extends(t: IdMap, t': IdMap) {
    forall s :: s in t.toId ==> s in t'.toId && t'.toId[s] == t.toId[s]
  }

  /** `t'` is `t` after the texts of `done` were resolved: earlier ids are
      kept, exactly the texts of `done` were added, the sequence only grew
      and every new text took an id above `t`'s sequence. */
  ghost predicate ResolvedUnder(t: IdMap, t': IdMap, done: set<string>) {
    && Extends(t, t')
    && (forall s :: s in t'.toId <==> s in t.toId || s in done)
    && t'.sequence >= t.sequence
    && (forall s :: s in t'.toId && s !in t.toId ==> t'.toId[s] > t.sequence)
  }

  lemma ResolvedUnderStep(t: IdMap, t': IdMap, done: set<string>, text: string)
    requires IdMapValid(t') && ResolvedUnder(t, t', done)
    ensures ResolvedUnder(t, Resolve(t', text).table, done + {text})
  {
  }

  const EmptyIdMap := IdMap(map[], map[], 0)

  /** `getId`: a known text keeps its id and nothing is written; an unknown
      text takes the next value of the sequence and both directions are
      written. */
  function Resolve(t: IdMap, text: string): (r: Resolution)
    ensures text in r.table.toId && r.table.toId[text] == r.id
    ensures IdMapValid(t) ==> r.id in r.table.toText && r.table.toText[r.id] == text
    ensures text in t.toId ==> r == Resolution(t, t.toId[text])
    ensures text !in t.toId ==> r.id == t.sequence + 1 && r.table.sequence == r.id
    ensures text !in t.toId ==> r.table.toId == t.toId[text := r.id] && r.table.toText == t.toText[r.id := text]
    ensures IdMapValid(t) ==> IdMapValid(r.table) && Extends(t, r.table)
    ensures IdMapValid(t) && text !in t.toId ==> r.id !in t.toText
    ensures r.table.sequence >= t.sequence
  {
    if text in t.toId then Resolution(t, t.toId[text])
    else
      var id := t.sequence + 1;
      Resolution(IdMap(t.toId[text := id], t.toText[id := text], id), id)
  }

  /** Resolving a text a second time returns the same id and changes
      nothing. */
  lemma ResolveTwice(t: IdMap, text: string)
    ensures Resolve(Resolve(t, text).table, text) == Resolve(t, text)
  {
  }

  /** No two distinct texts share an id in a valid table. */
  lemma IdsAreDistinct(t: IdMap, a: string, b: string)
    requires IdMapValid(t) && a in t.toId && b in t.toId && a != b
    ensures t.toId[a] != t.toId[b]
  {
    assert t.toText[t.toId[a]] == a && t.toText[t.toId[b]] == b;
  }

  /** One key of the ForwardTable bucket: either the nested bucket of a page's
      term frequencies or, under the same page id key, the scalar maxTf. */
  datatype ForwardEntry = Bucket(tfs: map<nat, int>) | Scalar(value: int)

  /** The term frequencies stored for a page; none when its key is absent or
      holds the scalar. */
  function Tfs(forward: map<nat, ForwardEntry>, pageId: nat): map<nat, int> {
    if pageId in forward && forward[pageId].Bucket? then forward[pageId].tfs else map[]
  }

  /** The page id key holds the nested bucket of term frequencies. */
  predicate HoldsBucket(forward: map<nat, ForwardEntry>, pageId: nat) {
    pageId in forward && forward[pageId].Bucket?
  }

  /** The page id key holds the scalar maxTf. */
  predicate HoldsScalar(forward: map<nat, ForwardEntry>, pageId: nat) {
    pageId in forward && forward[pageId].Scalar?
  }

  /** The staging `t` differs from `t0` only in that `pageId` was added to
      some posting lists, possibly new ones; a new list holds `pageId`. */
  ghost predicate StagedUnder(t0: map<nat, set<nat>>, t: map<nat, set<nat>>, pageId: nat) {
    && (forall k :: k in t0 ==> k in t)
    && (forall k :: k in t ==> Posting(t0, k) <= t[k] <= Posting(t0, k) + {pageId})
    && (forall k :: k in t && k !in t0 ==> pageId in t[k])
  }

  /** Every word of `done` has an id whose staged posting list holds
      `pageId`. */
  ghost predicate StagedAll(t: map<nat, set<nat>>, pageId: nat, ids: map<string, nat>, done: set<string>) {
    forall w :: w in done ==> w in ids && ids[w] in t && pageId in t[ids[w]]
  }

  lemma StagedAllStep(t: map<nat, set<nat>>, pageId: nat, ids: map<string, nat>, ids': map<string, nat>,
                      done: set<string>, word: string)
    requires StagedAll(t, pageId, ids, done)
    requires forall w :: w in ids ==> w in ids' && ids'[w] == ids[w]
    requires word in ids'
    ensures StagedAll(t[ids'[word] := Posting(t, ids'[word]) + {pageId}], pageId, ids', done + {word})
  {
  }

  /** Every posting list that gained `pageId` belongs to a word of `done`. */
  ghost predicate StagedOnlyUnder(t0: map<nat, set<nat>>, t: map<nat, set<nat>>, pageId: nat,
                                  ids: map<string, nat>, done: set<string>) {
    forall k :: k in t && pageId in t[k] && pageId !in Posting(t0, k) ==>
      exists w :: w in done && w in ids && ids[w] == k
  }

  lemma StagedOnlyUnderStep(t0: map<nat, set<nat>>, t: map<nat, set<nat>>, pageId: nat,
                            ids: map<string, nat>, ids': map<string, nat>, done: set<string>, word: string)
    requires StagedOnlyUnder(t0, t, pageId, ids, done)
    requires forall w :: w in ids ==> w in ids' && ids'[w] == ids[w]
    requires word in ids'
    ensures StagedOnlyUnder(t0, t[ids'[word] := Posting(t, ids'[word]) + {pageId}], pageId, ids', done + {word})
  {
    var t' := t[ids'[word] := Posting(t, ids'[word]) + {pageId}];
    forall k | k in t' && pageId in t'[k] && pageId !in Posting(t0, k)
      ensures exists w :: w in done + {word} && w in ids' && ids'[w] == k
    {
      if k != ids'[word] {
        var w :| w in done && w in ids && ids[w] == k;
        assert w in done + {word} && w in ids' && ids'[w] == k;
      }
    }
  }

  lemma StagedUnderStep(t0: map<nat, set<nat>>, t: map<nat, set<nat>>, pageId: nat, wordId: nat)
    requires StagedUnder(t0, t, pageId)
    ensures StagedUnder(t0, t[wordId := Posting(t, wordId) + {pageId}], pageId)
  {
  }

  /** The forward table `f` is `f0` after the frequencies of the words in
      `done` (with ids `ids`) were written under `pageId`: other pages are
      untouched; a page key holding the scalar maxTf refuses every write;
      otherwise the page has a nested bucket holding every written word with
      its frequency and every word it held before, the words not written
      keeping their frequencies, and no other word. */
  ghost predicate ForwardUnder(f0: map<nat, ForwardEntry>, f: map<nat, ForwardEntry>, pageId: nat,
                               ids: map<string, nat>, terms: map<string, int>, done: set<string>) {
    && f - {pageId} == f0 - {pageId}
    && (HoldsScalar(f0, pageId) ==> f == f0)
    && (!HoldsScalar(f0, pageId) ==> forall w :: w in done ==>
          w in ids && w in terms && ids[w] in Tfs(f, pageId) && Tfs(f, pageId)[ids[w]] == terms[w])
    && (!HoldsScalar(f0, pageId) ==> Tfs(f0, pageId).Keys <= Tfs(f, pageId).Keys)
    && (forall k :: k in Tfs(f, pageId) && k !in Tfs(f0, pageId) ==>
          exists w :: w in done && w in ids && ids[w] == k)
    && (forall k :: k in Tfs(f0, pageId) && !(exists w :: w in done && w in ids && ids[w] == k) ==>
          k in Tfs(f, pageId) && Tfs(f, pageId)[k] == Tfs(f0, pageId)[k])
    && (!HoldsScalar(f0, pageId) && done != {} ==> HoldsBucket(f, pageId))
    && (done == {} ==> f == f0)
  }

  lemma ForwardUnderStep(f0: map<nat, ForwardEntry>, f: map<nat, ForwardEntry>, pageId: nat,
                         ids: map<string, nat>, ids': map<string, nat>, terms: map<string, int>,
                         done: set<string>, word: string)
    requires ForwardUnder(f0, f, pageId, ids, terms, done)
    requires word in terms && word in ids'
    requires forall w :: w in ids ==> w in ids' && ids'[w] == ids[w]
    requires forall w :: w in ids' && w != word ==> ids'[w] != ids'[word]
    ensures var f' := if HoldsScalar(f, pageId) then f
                      else f[pageId := Bucket(Tfs(f, pageId)[ids'[word] := terms[word]])];
            ForwardUnder(f0, f', pageId, ids', terms, done + {word})
  {
    var f' := if HoldsScalar(f, pageId) then f
              else f[pageId := Bucket(Tfs(f, pageId)[ids'[word] := terms[word]])];
    assert f' - {pageId} == f0 - {pageId} by {
      assert f' - {pageId} == f - {pageId};
    }
  }

  /** The state after `IndexWord` ran for the words of `done` under
      `pageId`, starting from the word table `w0`, staging `t0` and forward
      table `f0`. */
  ghost predicate IndexedUnder(w0: IdMap, t0: map<nat, set<nat>>, f0: map<nat, ForwardEntry>,
                               w: IdMap, t: map<nat, set<nat>>, f: map<nat, ForwardEntry>,
                               pageId: nat, terms: map<string, int>, done: set<string>) {
    && ResolvedUnder(w0, w, done)
    && StagedAll(t, pageId, w.toId, done)
    && StagedUnder(t0, t, pageId)
    && StagedOnlyUnder(t0, t, pageId, w.toId, done)
    && ForwardUnder(f0, f, pageId, w.toId, terms, done)
  }

  /** Moving one word from `remaining` to `done` keeps them a partition of
      `all` and shrinks `remaining`. */
  lemma MoveToDone(all: set<string>, remaining: set<string>, done: set<string>, word: string)
    requires remaining + done == all && remaining !! done && word in remaining
    ensures (remaining - {word}) + (done + {word}) == all && (remaining - {word}) !! (done + {word})
    ensures remaining - {word} < remaining
  {
  }

  /** Before any word is indexed the state is its own starting point. */
  lemma IndexedNothing(w: IdMap, t: map<nat, set<nat>>, f: map<nat, ForwardEntry>,
                       pageId: nat, terms: map<string, int>)
    ensures IndexedUnder(w, t, f, w, t, f, pageId, terms, {})
  {
  }

  /** One more word indexed: resolving it, staging the page under its id and
      writing its frequency keeps `IndexedUnder`. */
  lemma IndexedUnderStep(w0: IdMap, t0: map<nat, set<nat>>, f0: map<nat, ForwardEntry>,
                         w: IdMap, t: map<nat, set<nat>>, f: map<nat, ForwardEntry>,
                         pageId: nat, terms: map<string, int>, done: set<string>, word: string)
    requires IdMapValid(w) && word in terms
    requires IndexedUnder(w0, t0, f0, w, t, f, pageId, terms, done)
    ensures var w' := Resolve(w, word).table;
            var wordId := w'.toId[word];
            IndexedUnder(w0, t0, f0, w', t[wordId := Posting(t, wordId) + {pageId}],
                         if HoldsScalar(f, pageId) then f else f[pageId := Bucket(Tfs(f, pageId)[wordId := terms[word]])],
                         pageId, terms, done + {word})
  {
    var w' := Resolve(w, word).table;
    forall v | v in w'.toId && v != word ensures w'.toId[v] != w'.toId[word] {
      IdsAreDistinct(w', v, word);
    }
    ResolvedUnderStep(w0, w, done, word);
    StagedAllStep(t, pageId, w.toId, w'.toId, done, word);
    StagedUnderStep(t0, t, pageId, w'.toId[word]);
    StagedOnlyUnderStep(t0, t, pageId, w.toId, w'.toId, done, word);
    ForwardUnderStep(f0, f, pageId, w.toId, w'.toId, terms, done, word);
  }

  /** The pages staged or flushed under a word id. */
  function Posting(postings: map<nat, set<nat>>, wordId: nat): set<nat> {
    if wordId in postings then postings[wordId] else {}
  }

  ghost predicate Distinct(s: seq<nat>) {
    forall i, j :: 0 <= i < j < |s| ==> s[i] != s[j]
  }

  /** `t` is `s` followed by zero or more ids. */
  ghost predicate IsPrefix(s: seq<nat>, t: seq<nat>) {
    |s| <= |t| && t[..|s|] == s
  }

  lemma PrefixOfPrefix(s: seq<nat>, t: seq<nat>, u: seq<nat>)
    requires IsPrefix(s, t) && IsPrefix(t, u)
    ensures IsPrefix(s, u)
  {
    assert u[..|s|] == u[..|t|][..|s|];
  }

  /** The staging invariant: `wordIdList` lists each key of `tempInverted`
      exactly once. */
  ghost predicate StagingValid(tempInverted: map<nat, set<nat>>, wordIdList: seq<nat>) {
    && Distinct(wordIdList)
    && (forall w :: w in tempInverted <==> w in wordIdList)
  }

  /** A sequence is duplicate-free iff no element occurs twice in its
      multiset. */
  lemma {:induction false} DistinctByCount(s: seq<nat>)
    ensures Distinct(s) <==> forall x :: multiset(s)[x] <= 1
  {
    if s != [] {
      var t := s[1..];
      assert s == [s[0]] + t;
      DistinctByCount(t);
      assert multiset(s) == multiset{s[0]} + multiset(t);
      if Distinct(s) {
        assert s[0] !in t by {
          forall k | 0 <= k < |t| ensures t[k] != s[0] {
            assert t[k] == s[k + 1];
          }
        }
        assert Distinct(t) by {
          forall i, j | 0 <= i < j < |t| ensures t[i] != t[j] {
            assert t[i] == s[i + 1] && t[j] == s[j + 1];
          }
        }
      }
      if forall x :: multiset(s)[x] <= 1 {
        assert multiset(s)[s[0]] <= 1;
        assert s[0] !in multiset(t);
        assert forall x :: multiset(t)[x] <= multiset(s)[x];
        forall i, j | 0 <= i < j < |s| ensures s[i] != s[j] {
          if i == 0 {
            assert s[j] == t[j - 1];
          } else {
            assert s[i] == t[i - 1] && s[j] == t[j - 1];
          }
        }
      }
    }
  }

  /** Staging one more page under a word id keeps the staging invariant when
      the id joins the list exactly if it had no posting list yet. */
  lemma StagingStep(tempInverted: map<nat, set<nat>>, wordIdList: seq<nat>, wordId: nat, pageId: nat)
    requires StagingValid(tempInverted, wordIdList)
    ensures StagingValid(tempInverted[wordId := Posting(tempInverted, wordId) + {pageId}],
                         if wordId in tempInverted then wordIdList else wordIdList + [wordId])
  {
    if wordId !in tempInverted {
      var ids := wordIdList + [wordId];
      forall i, j | 0 <= i < j < |ids| ensures ids[i] != ids[j] {
        if j == |wordIdList| {
          assert ids[i] == wordIdList[i];
          assert wordIdList[i] in wordIdList;
        } else {
          assert ids[i] == wordIdList[i] && ids[j] == wordIdList[j];
        }
      }
    }
  }

  /** Reordering keeps the staging invariant. */
  lemma PermutedStagingValid(tempInverted: map<nat, set<nat>>, ids: seq<nat>, sorted: seq<nat>)
    requires StagingValid(tempInverted, ids) && multiset(sorted) == multiset(ids)
    ensures StagingValid(tempInverted, sorted)
  {
    DistinctByCount(ids);
    DistinctByCount(sorted);
    forall w ensures w in sorted <==> w in ids {
      assert w in sorted <==> w in multiset(sorted);
      assert w in ids <==> w in multiset(ids);
    }
  }

  /** The inverted table after merging the staged postings of the word ids in
      `done` into `inverted`. */
  function Merged(inverted: map<nat, set<nat>>, staged: map<nat, set<nat>>, done: set<nat>): map<nat, set<nat>> {
    map w | w in inverted.Keys + (staged.Keys * done) ::
      Posting(inverted, w) + (if w in done then Posting(staged, w) else {})
  }

  lemma MergedNothing(inverted: map<nat, set<nat>>, staged: map<nat, set<nat>>)
    ensures Merged(inverted, staged, {}) == inverted
  {
    var m := Merged(inverted, staged, {});
    assert m.Keys == inverted.Keys;
    forall w | w in m ensures m[w] == inverted[w] {
      assert m[w] == Posting(inverted, w) + {};
    }
  }

  lemma MergedKeysStep(inverted: map<nat, set<nat>>, staged: map<nat, set<nat>>, done: set<nat>, id: nat)
    requires id in staged
    ensures Merged(inverted, staged, done + {id}).Keys == Merged(inverted, staged, done).Keys + {id}
  {
  }

  lemma MergedOthersStep(inverted: map<nat, set<nat>>, staged: map<nat, set<nat>>, done: set<nat>, id: nat, w: nat)
    requires w in Merged(inverted, staged, done) && w != id
    ensures Merged(inverted, staged, done + {id})[w] == Merged(inverted, staged, done)[w]
  {
  }

  /** Merging one more word id adds its staged postings to its entry. */
  lemma MergedStep(inverted: map<nat, set<nat>>, staged: map<nat, set<nat>>, done: set<nat>, id: nat)
    requires id in staged
    ensures var m := Merged(inverted, staged, done);
      Merged(inverted, staged, done + {id}) == m[id := Posting(m, id) + staged[id]]
  {
    var m := Merged(inverted, staged, done);
    var m' := Merged(inverted, staged, done + {id});
    var n := m[id := Posting(m, id) + staged[id]];
    MergedKeysStep(inverted, staged, done, id);
    assert m'.Keys == n.Keys;
    forall w | w in n ensures m'[w] == n[w] {
      if w == id {
        assert m'[w] == Posting(inverted, id) + staged[id];
      } else {
        MergedOthersStep(inverted, staged, done, id, w);
      }
    }
  }

  /** The inverted table after `FlushInverted`: every staged pair is present
      and every earlier entry is kept. */
  function Flushed(inverted: map<nat, set<nat>>, staged: map<nat, set<nat>>): (r: map<nat, set<nat>>)
    ensures r.Keys == inverted.Keys + staged.Keys
    ensures forall w :: w in inverted ==> inverted[w] <= r[w]
    ensures forall w, p :: w in staged && p in staged[w] ==> w in r && p in r[w]
    ensures forall w :: w in r ==> r[w] <= Posting(inverted, w) + Posting(staged, w)
  {
    Merged(inverted, staged, staged.Keys)
  }

  /** Since the staging is not cleared, flushing a second time changes
      nothing. */
  lemma FlushTwice(inverted: map<nat, set<nat>>, staged: map<nat, set<nat>>)
    ensures Flushed(Flushed(inverted, staged), staged) == Flushed(inverted, staged)
  {
    var once := Flushed(inverted, staged);
    var twice := Flushed(once, staged);
    assert twice.Keys == once.Keys;
    forall w | w in once ensures twice[w] == once[w] {
      assert Posting(once, w) == once[w];
    }
  }

  /** Which word-id/page-id table pair an identifier is resolved in. */
  datatype IdKind = Pages | Words

  class Indexer {
    /** UrlToPageId and PageIdToUrl. */
    var urls: IdMap
    /** WordToWordId and WordIdToWord. */
    var words: IdMap
    /** ForwardTable: per page id, its term frequencies or its maxTf. */
    var forward: map<nat, ForwardEntry>
    /** InvertedTable: per word id, the set of page ids. */
    var inverted: map<nat, set<nat>>
    /** PageInfo: per page id, the encoded document. */
    var pageInfo: map<nat, Document>
    /** In-memory staging of the inverted index. */
    var tempInverted: map<nat, set<nat>>
    var wordIdList: seq<nat>

    ghost predicate Valid()
      reads this
    {
      IdMapValid(urls) && IdMapValid(words) && StagingValid(tempInverted, wordIdList)
    }

    /** `LoadIndexer`: an indexer over the tables the database file already
        holds (every table exists, empty for a new file); they are kept as
        they are and nothing is staged. */
    constructor (urls0: IdMap, words0: IdMap, forward0: map<nat, ForwardEntry>,
                 inverted0: map<nat, set<nat>>, pageInfo0: map<nat, Document>)
      requires IdMapValid(urls0) && IdMapValid(words0)
      ensures Valid()
      ensures urls == urls0 && words == words0
      ensures forward == forward0 && inverted == inverted0 && pageInfo == pageInfo0
      ensures tempInverted == map[] && wordIdList == []
    {
      urls, words := urls0, words0;
      forward, inverted, pageInfo := forward0, inverted0, pageInfo0;
      tempInverted, wordIdList := map[], [];
    }

    function Table(kind: IdKind): IdMap
      reads this
    {
      if kind == Pages then urls else words
    }

    /** `DropAll`: every table is deleted and created anew, empty and with
        its sequence back at zero; the in-memory staging is left as it is. */
    method DropAll()
      requires Valid()
      modifies this
      ensures Valid()
      ensures urls == EmptyIdMap && words == EmptyIdMap
      ensures forward == map[] && inverted == map[] && pageInfo == map[]
      ensures tempInverted == old(tempInverted) && wordIdList == old(wordIdList)
    {
      urls, words := EmptyIdMap, EmptyIdMap;
      forward, inverted, pageInfo := map[], map[], map[];
    }

    /** `getId`: a read transaction looks the text up; when it is absent a
        write transaction takes the next sequence value and stores both
        directions. */
    method GetId(text: string, kind: IdKind) returns (id: nat)
      requires Valid()
      modifies this
      ensures Valid()
      ensures Resolution(Table(kind), id) == Resolve(old(Table(kind)), text)
      ensures kind == Pages ==> words == old(words)
      ensures kind == Words ==> urls == old(urls)
      ensures forward == old(forward) && inverted == old(inverted) && pageInfo == old(pageInfo)
      ensures tempInverted == old(tempInverted) && wordIdList == old(wordIdList)
    {
      var t := Table(kind);
      if text in t.toId {
        id := t.toId[text];
        return;
      }
      id := t.sequence + 1;
      t := IdMap(t.toId[text := id], t.toText[id := text], id);
      assert Resolution(t, id) == Resolve(Table(kind), text);
      if kind == Pages {
        urls := t;
      } else {
        words := t;
      }
    }

    /** `getOrCreatePageId`. */
    method GetOrCreatePageId(url: string) returns (pageId: nat)
      requires Valid()
      modifies this
      ensures Valid()
      ensures Resolution(urls, pageId) == Resolve(old(urls), url)
      ensures words == old(words)
      ensures forward == old(forward) && inverted == old(inverted) && pageInfo == old(pageInfo)
      ensures tempInverted == old(tempInverted) && wordIdList == old(wordIdList)
    {
      pageId := GetId(url, Pages);
    }

    /** `getOrCreateWordId`. */
    method GetOrCreateWordId(word: string) returns (wordId: nat)
      requires Valid()
      modifies this
      ensures Valid()
      ensures Resolution(words, wordId) == Resolve(old(words), word)
      ensures urls == old(urls)
      ensures forward == old(forward) && inverted == old(inverted) && pageInfo == old(pageInfo)
      ensures tempInverted == old(tempInverted) && wordIdList == old(wordIdList)
    {
      wordId := GetId(word, Words);
    }

    /** `updateInverted`: stages the page under the word's id; the word id
        joins `wordIdList` only when it had no posting list yet. */
    method UpdateInverted(word: string, pageId: nat)
      requires Valid()
      modifies this
      ensures Valid()
      ensures words == Resolve(old(words), word).table
      ensures var wordId := words.toId[word];
        && tempInverted == old(tempInverted)[wordId := Posting(old(tempInverted), wordId) + {pageId}]
        && wordIdList == if wordId in old(tempInverted) then old(wordIdList) else old(wordIdList) + [wordId]
      ensures urls == old(urls)
      ensures forward == old(forward) && inverted == old(inverted) && pageInfo == old(pageInfo)
    {
      var wordId := GetOrCreateWordId(word);
      StagingStep(tempInverted, wordIdList, wordId, pageId);
      if wordId !in tempInverted {
        wordIdList := wordIdList + [wordId];
      }
      tempInverted := tempInverted[wordId := Posting(tempInverted, wordId) + {pageId}];
    }

    /** `FlushInverted`: sorts `wordIdList` ascending in place, then merges
        every staged word's postings into the inverted table; the staging is
        kept. */
    method FlushInverted()
      requires Valid()
      modifies this
      ensures Valid()
      ensures Sorting.SortedBy(wordIdList, (w: nat) => w)
      ensures multiset(wordIdList) == multiset(old(wordIdList))
      ensures inverted == Flushed(old(inverted), tempInverted)
      ensures tempInverted == old(tempInverted)
      ensures urls == old(urls) && words == old(words)
      ensures forward == old(forward) && pageInfo == old(pageInfo)
    {
      var sorted := Sorting.SortBy(wordIdList, (w: nat) => w);
      PermutedStagingValid(tempInverted, wordIdList, sorted);
      wordIdList := sorted;

      ghost var done: set<nat> := {};
      MergedNothing(inverted, tempInverted);
      for index := 0 to |sorted|
        invariant tempInverted == old(tempInverted) && wordIdList == sorted
        invariant Valid()
        invariant forall w :: w in done <==> w in sorted[..index]
        invariant done <= tempInverted.Keys
        invariant inverted == Merged(old(inverted), tempInverted, done)
        invariant urls == old(urls) && words == old(words)
        invariant forward == old(forward) && pageInfo == old(pageInfo)
      {
        var id := wordIdList[index];
        assert wordIdList[..index + 1] == wordIdList[..index] + [id];
        var postingList := tempInverted[id];
        MergedStep(old(inverted), tempInverted, done, id);
        inverted := inverted[id := Posting(inverted, id) + postingList];
        done := done + {id};
      }
      assert wordIdList[..|wordIdList|] == wordIdList;
      assert done == tempInverted.Keys;
    }

    /** `updateForward`: records the term frequency in the page's nested
        bucket, overwriting an earlier value. When the page id key holds the
        scalar maxTf, creating the nested bucket fails and the write is
        dropped. */
    method UpdateForward(word: string, pageId: nat, tf: int)
      requires Valid()
      modifies this
      ensures Valid()
      ensures words == Resolve(old(words), word).table
      ensures pageId in old(forward) && old(forward[pageId]).Scalar? ==> forward == old(forward)
      ensures !(pageId in old(forward) && old(forward[pageId]).Scalar?) ==>
                forward == old(forward)[pageId := Bucket(Tfs(old(forward), pageId)[words.toId[word] := tf])]
      ensures urls == old(urls)
      ensures inverted == old(inverted) && pageInfo == old(pageInfo)
      ensures tempInverted == old(tempInverted) && wordIdList == old(wordIdList)
    {
      var wordId := GetOrCreateWordId(word);
      if pageId !in forward {
        forward := forward[pageId := Bucket(map[wordId := tf])];
      } else if forward[pageId].Bucket? {
        forward := forward[pageId := Bucket(forward[pageId].tfs[wordId := tf])];
      }
    }

    /** `ContainsUrl`: the URL has a page id, that is, resolving it would
        allocate nothing. */
    function ContainsUrl(url: string): (present: bool)
      reads this
      ensures present <==> Resolve(urls, url).table == urls
    {
      url in urls.toId
    }

    /** `setMaxTf`: puts the scalar under the page id key, which the store
        refuses when that key holds the page's nested bucket of term
        frequencies. */
    method SetMaxTf(pageId: nat, maxTf: int)
      requires Valid()
      modifies this
      ensures Valid()
      ensures pageId in old(forward) && old(forward[pageId]).Bucket? ==> forward == old(forward)
      ensures !(pageId in old(forward) && old(forward[pageId]).Bucket?) ==> forward == old(forward)[pageId := Scalar(maxTf)]
      ensures GetMaxTf(pageId) == if pageId in old(forward) && old(forward[pageId]).Bucket? then None else Some(maxTf)
      ensures urls == old(urls) && words == old(words)
      ensures inverted == old(inverted) && pageInfo == old(pageInfo)
      ensures tempInverted == old(tempInverted) && wordIdList == old(wordIdList)
    {
      if !(pageId in forward && forward[pageId].Bucket?) {
        forward := forward[pageId := Scalar(maxTf)];
      }
    }

    /** `getMaxTf`: the scalar stored under the page id; none when the key is
        absent or holds the nested bucket (a bolt Get of a bucket key reads
        nothing). */
    function GetMaxTf(pageId: nat): (r: Option<int>)
      reads this
      ensures r.Some? <==> HoldsScalar(forward, pageId)
      ensures r.Some? ==> forward[pageId] == Scalar(r.value)
      ensures HoldsBucket(forward, pageId) ==> r == None
      ensures r.Some? ==> Tfs(forward, pageId) == map[]
    {
      if pageId in forward && forward[pageId].Scalar? then Some(forward[pageId].value) else None
    }

    /** The two tasks `UpdateOrAddPage` starts for one word. */
    method IndexWord(word: string, tf: int, pageId: nat)
      requires Valid()
      modifies this
      ensures Valid()
      ensures urls == old(urls) && inverted == old(inverted) && pageInfo == old(pageInfo)
      ensures words == Resolve(old(words), word).table
      ensures Extends(old(words), words) && word in words.toId
      ensures var wordId := words.toId[word];
        && (forall w :: w in words.toId && w != word ==> words.toId[w] != wordId)
        && tempInverted == old(tempInverted)[wordId := Posting(old(tempInverted), wordId) + {pageId}]
        && wordIdList == (if wordId in old(tempInverted) then old(wordIdList) else old(wordIdList) + [wordId])
        && (HoldsScalar(old(forward), pageId) ==> forward == old(forward))
        && (!HoldsScalar(old(forward), pageId) ==>
              forward == old(forward)[pageId := Bucket(Tfs(old(forward), pageId)[wordId := tf])])
    {
      UpdateInverted(word, pageId);
      UpdateForward(word, pageId, tf);
      forall w | w in words.toId && w != word ensures words.toId[w] != words.toId[word] {
        IdsAreDistinct(words, w, word);
      }
    }

    /** One iteration of `IndexWords`: `IndexWord` for one more word of
        `terms`, keeping `IndexedUnder`. */
    method IndexNext(terms: map<string, int>, word: string, pageId: nat,
                     ghost w0: IdMap, ghost t0: map<nat, set<nat>>, ghost f0: map<nat, ForwardEntry>,
                     ghost done: set<string>)
      requires Valid() && word in terms
      requires IndexedUnder(w0, t0, f0, words, tempInverted, forward, pageId, terms, done)
      modifies this
      ensures Valid()
      ensures urls == old(urls) && inverted == old(inverted) && pageInfo == old(pageInfo)
      ensures IndexedUnder(w0, t0, f0, words, tempInverted, forward, pageId, terms, done + {word})
      ensures IsPrefix(old(wordIdList), wordIdList)
    {
      IndexedUnderStep(w0, t0, f0, words, tempInverted, forward, pageId, terms, done, word);
      IndexWord(word, terms[word], pageId);
    }

    /** The per-word tasks of `UpdateOrAddPage`, one word after another in
        the map's (unspecified) order: `updateInverted` and `updateForward`
        of each word under `pageId`. */
    method IndexWords(terms: map<string, int>, pageId: nat)
      requires Valid()
      modifies this
      ensures Valid()
      ensures urls == old(urls) && inverted == old(inverted) && pageInfo == old(pageInfo)
      ensures ResolvedUnder(old(words), words, terms.Keys)
      ensures StagedAll(tempInverted, pageId, words.toId, terms.Keys)
      ensures StagedUnder(old(tempInverted), tempInverted, pageId)
      ensures StagedOnlyUnder(old(tempInverted), tempInverted, pageId, words.toId, terms.Keys)
      ensures ForwardUnder(old(forward), forward, pageId, words.toId, terms, terms.Keys)
      ensures IsPrefix(old(wordIdList), wordIdList)
    {
      var remaining := terms.Keys;
      ghost var done: set<string> := {};
      IndexedNothing(words, tempInverted, forward, pageId, terms);
      while remaining != {}
        invariant Valid()
        invariant remaining + done == terms.Keys && remaining !! done
        invariant urls == old(urls) && inverted == old(inverted) && pageInfo == old(pageInfo)
        invariant IndexedUnder(old(words), old(tempInverted), old(forward), words, tempInverted, forward,
                               pageId, terms, done)
        invariant IsPrefix(old(wordIdList), wordIdList)
        decreases remaining
      {
        var word :| word in remaining;
        ghost var list1 := wordIdList;
        IndexNext(terms, word, pageId, old(words), old(tempInverted), old(forward), done);
        PrefixOfPrefix(old(wordIdList), list1, wordIdList);
        MoveToDone(terms.Keys, remaining, done, word);
        remaining := remaining - {word};
        done := done + {word};
      }
      assert done == terms.Keys;
    }

    /** `UpdateOrAddPage`: resolves the page id, stages and forward-indexes
        every word, then stores maxTf and the document. Because maxTf shares
        the page id key with the page's nested bucket, it is stored only for a
        page that has no forward entries. */
    method UpdateOrAddPage(p: Document)
      requires Valid()
      modifies this
      ensures Valid()
      ensures ContainsUrl(p.uri)
      ensures urls == Resolve(old(urls), p.uri).table
      ensures Extends(old(words), words)
      ensures forall w :: w in words.toId <==> w in old(words).toId || w in p.words
      ensures words.sequence >= old(words).sequence
      ensures forall w :: w in words.toId && w !in old(words).toId ==> words.toId[w] > old(words).sequence
      ensures IsPrefix(old(wordIdList), wordIdList)
      ensures var pageId := urls.toId[p.uri];
        && pageInfo == old(pageInfo)[pageId := p]
        && (forall w :: w in p.words ==>
              w in words.toId && words.toId[w] in tempInverted && pageId in tempInverted[words.toId[w]])
        && (forall k :: k in old(tempInverted) ==> k in tempInverted)
        && (forall k :: k in tempInverted ==>
              Posting(old(tempInverted), k) <= tempInverted[k] <= Posting(old(tempInverted), k) + {pageId})
        && (forall k :: k in tempInverted && k !in old(tempInverted) ==> pageId in tempInverted[k])
        && forward - {pageId} == old(forward) - {pageId}
        && (HoldsScalar(old(forward), pageId) ==> forward == old(forward)[pageId := Scalar(p.maxTf)])
        && (!HoldsScalar(old(forward), pageId) ==> forall w :: w in p.words ==>
              words.toId[w] in Tfs(forward, pageId) && Tfs(forward, pageId)[words.toId[w]] == p.words[w])
        && (!HoldsScalar(old(forward), pageId) ==> Tfs(old(forward), pageId).Keys <= Tfs(forward, pageId).Keys)
        && (forall k :: k in Tfs(forward, pageId) && k !in Tfs(old(forward), pageId) ==>
              exists w :: w in p.words && w in words.toId && words.toId[w] == k)
        && (forall k :: k in Tfs(old(forward), pageId) && !(exists w :: w in p.words && w in words.toId && words.toId[w] == k) ==>
              k in Tfs(forward, pageId) && Tfs(forward, pageId)[k] == Tfs(old(forward), pageId)[k])
        && (forall k :: k in tempInverted && pageId in tempInverted[k] && pageId !in Posting(old(tempInverted), k) ==>
              exists w :: w in p.words && w in words.toId && words.toId[w] == k)
        && (HoldsBucket(forward, pageId) <==>
              HoldsBucket(old(forward), pageId) || (pageId !in old(forward) && p.words != map[]))
        && GetMaxTf(pageId) == (if HoldsBucket(forward, pageId) then None else Some(p.maxTf))
      ensures inverted == old(inverted)
    {
      var pageId := GetOrCreatePageId(p.uri);
      IndexWords(p.words, pageId);
      SetMaxTf(pageId, p.maxTf);
      pageInfo := pageInfo[pageId := p];
    }
  }
}
