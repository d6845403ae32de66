/** Phrase search over a read-only view of the index (retrieval/phrase.go).
    Document ids and token offsets are integers; a query is a sequence of
    terms. The view's posting lists and position lists are the sorted lists
    the store hands out. */
module Retrieval {
  import Sorting

  /** An ordered pair of adjacent query terms. */
  datatype Bigram = Bigram(n1: string, n2: string)

  /** What the query side reads from the store: a posting list (document ids)
      per term and a position list (token offsets) per (document id, term). */
  datatype Viewer = Viewer(postings: map<string, seq<int>>, positions: map<(int, string), seq<int>>)

  ghost predicate StrictlyAscending(s: seq<int>) {
    forall i, j :: 0 <= i < j < |s| ==> s[i] < s[j]
  }

  lemma PrependAscending(x: int, s: seq<int>)
    requires StrictlyAscending(s) && forall y :: y in s ==> x < y
    ensures StrictlyAscending([x] + s)
  {
    forall i, j | 0 <= i < j < |[x] + s| ensures ([x] + s)[i] < ([x] + s)[j] {
      if i == 0 {
        assert ([x] + s)[j] == s[j - 1];
        assert s[j - 1] in s;
      }
    }
  }

  lemma AppendAscending(s: seq<int>, x: int)
    requires StrictlyAscending(s) && forall y :: y in s ==> y < x
    ensures StrictlyAscending(s + [x])
  {
    forall i, j | 0 <= i < j < |s + [x]| ensures (s + [x])[i] < (s + [x])[j] {
      assert (s + [x])[i] == s[i];
      assert s[i] in s;
    }
  }

  /** The store hands out posting lists and position lists in ascending order,
      one entry per document or per occurrence. */
  ghost predicate WellFormed(v: Viewer) {
    && (forall t :: t in v.postings ==> StrictlyAscending(v.postings[t]))
    && (forall k :: k in v.positions ==> StrictlyAscending(v.positions[k]))
  }

  /** The posting list of `term`; a term never indexed has none. */
  function Postings(v: Viewer, term: string): (r: seq<int>)
    requires WellFormed(v)
    ensures StrictlyAscending(r)
    ensures term in v.postings ==> r == v.postings[term]
    ensures term !in v.postings ==> r == []
  {
    if term in v.postings then v.postings[term] else []
  }

  /** Stand-in for `Viewer.GetPositionIndices`: the offsets of `term` in
      document `id`, ascending; empty when the term does not occur there. */
  function GetPositionIndices(v: Viewer, id: int, term: string): (r: seq<int>)
    requires WellFormed(v)
    ensures StrictlyAscending(r)
    ensures (id, term) in v.positions ==> r == v.positions[(id, term)]
    ensures (id, term) !in v.positions ==> r == []
  {
    if (id, term) in v.positions then v.positions[(id, term)] else []
  }

  /** The head of an ascending list is below everything after it. */
  lemma HeadBelowTail(a: seq<int>)
    requires StrictlyAscending(a) && a != []
    ensures a == [a[0]] + a[1..]
    ensures forall x :: x in a[1..] ==> a[0] < x
  {
    forall x | x in a[1..] ensures a[0] < x {
      var k :| 0 <= k < |a[1..]| && a[1..][k] == x;
      assert a[k + 1] == x;
    }
  }

  /** Stand-in for `intersect`: a two-pointer merge of two ascending lists. */
  function Intersect(a: seq<int>, b: seq<int>): (r: seq<int>)
    requires StrictlyAscending(a) && StrictlyAscending(b)
    ensures StrictlyAscending(r)
    ensures forall x :: x in r <==> x in a && x in b
    decreases |a| + |b|
  {
    if a == [] || b == [] then []
    else
      HeadBelowTail(a);
      HeadBelowTail(b);
      if a[0] == b[0] then
        var rest := Intersect(a[1..], b[1..]);
        PrependAscending(a[0], rest);
        [a[0]] + rest
      else if a[0] < b[0] then
        Intersect(a[1..], b)
      else
        Intersect(a, b[1..])
  }

  /** Stand-in for `booleanFilter`: the documents whose posting lists hold
      every term, ascending; an empty query matches nothing and a one-term
      query yields that term's posting list unchanged. */
  function BooleanFilter(v: Viewer, terms: seq<string>): (r: seq<int>)
    requires WellFormed(v)
    ensures StrictlyAscending(r)
    ensures forall x :: x in r <==> terms != [] && forall t :: t in terms ==> x in Postings(v, t)
    ensures |terms| == 1 ==> r == Postings(v, terms[0])
    decreases |terms|
  {
    if |terms| == 0 then []
    else if |terms| == 1 then Postings(v, terms[0])
    else
      var init := terms[..|terms| - 1];
      assert terms == init + [terms[|terms| - 1]];
      Intersect(BooleanFilter(v, init), Postings(v, terms[|terms| - 1]))
  }

  /** The bigrams of a query: the k-th is (query[k], query[k+1]). */
  method SplitToBigrams(query: seq<string>) returns (bigrams: seq<Bigram>)
    ensures |bigrams| == if |query| == 0 then 0 else |query| - 1
    ensures forall k :: 0 <= k < |bigrams| ==> bigrams[k] == Bigram(query[k], query[k + 1])
  {
    bigrams := [];
    var i := 0;
    while i + 1 < |query|
      invariant i == |bigrams|
      invariant i == 0 || i < |query|
      invariant forall k :: 0 <= k < i ==> bigrams[k] == Bigram(query[k], query[k + 1])
    {
      bigrams := bigrams + [Bigram(query[i], query[i + 1])];
      i := i + 1;
    }
  }

  /** The two terms of `bg` occur at consecutive offsets in document `id`:
      some offset p of the first term has p + 1 among the second's offsets. */
  predicate Adjacent(v: Viewer, id: int, bg: Bigram)
    requires WellFormed(v)
  {
    var pos1, pos2 := GetPositionIndices(v, id, bg.n1), GetPositionIndices(v, id, bg.n2);
    exists i, j :: 0 <= i < |pos1| && 0 <= j < |pos2| && pos2[j] == pos1[i] + 1
  }

  /** Every offset moved one to the left. */
  function Shifted(s: seq<int>): (r: seq<int>)
    ensures |r| == |s|
    ensures forall i :: 0 <= i < |s| ==> r[i] == s[i] - 1
    ensures StrictlyAscending(s) ==> StrictlyAscending(r)
  {
    seq(|s|, i requires 0 <= i < |s| => s[i] - 1)
  }

  /** Decrements every offset in place (the `pos2[i]--` loop). */
  method DecrementAll(pos: array<int>)
    modifies pos
    ensures pos[..] == Shifted(old(pos[..]))
  {
    for i := 0 to pos.Length
      invariant forall j :: 0 <= j < i ==> pos[j] == old(pos[j]) - 1
      invariant forall j :: i <= j < pos.Length ==> pos[j] == old(pos[j])
    {
      pos[i] := pos[i] - 1;
    }
  }

  /** Aligning the second term's offsets one to the left and intersecting
      finds a common offset exactly when the two terms are adjacent, the
      first term first. */
  lemma AdjacentIffCommon(v: Viewer, id: int, bg: Bigram)
    requires WellFormed(v)
    ensures Intersect(GetPositionIndices(v, id, bg.n1), Shifted(GetPositionIndices(v, id, bg.n2))) != []
            <==> Adjacent(v, id, bg)
  {
    var pos1 := GetPositionIndices(v, id, bg.n1);
    var pos2 := GetPositionIndices(v, id, bg.n2);
    var common := Intersect(pos1, Shifted(pos2));
    if common != [] {
      var p := common[0];
      assert p in pos1 && p in Shifted(pos2);
      var i :| 0 <= i < |pos1| && pos1[i] == p;
      var j :| 0 <= j < |pos2| && Shifted(pos2)[j] == p;
      assert pos2[j] == pos1[i] + 1;
    }
    if Adjacent(v, id, bg) {
      var i, j :| 0 <= i < |pos1| && 0 <= j < |pos2| && pos2[j] == pos1[i] + 1;
      assert Shifted(pos2)[j] == pos1[i];
      assert pos1[i] in pos1 && pos1[i] in Shifted(pos2);
      assert pos1[i] in common;
    }
  }

  /** Adjacency in terms of offsets: some offset p of the first term has
      p + 1 among the second term's offsets. */
  lemma AdjacentOffsets(v: Viewer, id: int, bg: Bigram)
    requires WellFormed(v)
    ensures Adjacent(v, id, bg) <==>
            exists p :: p in GetPositionIndices(v, id, bg.n1) && p + 1 in GetPositionIndices(v, id, bg.n2)
  {
    var pos1 := GetPositionIndices(v, id, bg.n1);
    var pos2 := GetPositionIndices(v, id, bg.n2);
    if Adjacent(v, id, bg) {
      var i, j :| 0 <= i < |pos1| && 0 <= j < |pos2| && pos2[j] == pos1[i] + 1;
      assert pos1[i] in pos1 && pos1[i] + 1 in pos2;
    }
    if exists p :: p in pos1 && p + 1 in pos2 {
      var p :| p in pos1 && p + 1 in pos2;
      var i :| 0 <= i < |pos1| && pos1[i] == p;
      var j :| 0 <= j < |pos2| && pos2[j] == p + 1;
    }
  }

  /** The candidates, in their order, that hold the bigram as a phrase. */
  function KeepAdjacent(v: Viewer, bg: Bigram, docs: seq<int>): (r: seq<int>)
    requires WellFormed(v)
    ensures |r| <= |docs|
    ensures forall x :: x in r ==> x in docs
    ensures StrictlyAscending(docs) ==> StrictlyAscending(r)
    decreases |docs|
  {
    if docs == [] then []
    else
      var init, last := docs[..|docs| - 1], docs[|docs| - 1];
      assert docs == init + [last];
      var kept := KeepAdjacent(v, bg, init);
      if Adjacent(v, last, bg) then
        assert StrictlyAscending(docs) ==> StrictlyAscending(kept + [last]) by {
          if StrictlyAscending(docs) {
            forall x | x in kept ensures x < last {
              var k :| 0 <= k < |init| && init[k] == x;
            }
            AppendAscending(kept, last);
          }
        }
        kept + [last]
      else kept
  }

  /** A candidate is kept iff it holds the bigram as a phrase. */
  lemma {:induction false} KeepAdjacentMembers(v: Viewer, bg: Bigram, docs: seq<int>, x: int)
    requires WellFormed(v)
    ensures x in KeepAdjacent(v, bg, docs) <==> x in docs && Adjacent(v, x, bg)
    decreases |docs|
  {
    if docs != [] {
      var init := docs[..|docs| - 1];
      assert docs == init + [docs[|docs| - 1]];
      KeepAdjacentMembers(v, bg, init, x);
    }
  }

  /** `idx` lists, strictly increasing, the places in `s` that `r` was taken
      from. */
  ghost predicate SubsequenceAt(r: seq<int>, s: seq<int>, idx: seq<int>) {
    && |idx| == |r|
    && (forall i :: 0 <= i < |idx| ==> 0 <= idx[i] < |s| && r[i] == s[idx[i]])
    && (forall i, j :: 0 <= i < j < |idx| ==> idx[i] < idx[j])
  }

  /** The places of the candidates that `KeepAdjacent` keeps. */
  ghost function KeptPlaces(v: Viewer, bg: Bigram, docs: seq<int>): (idx: seq<int>)
    requires WellFormed(v)
    decreases |docs|
  {
    if docs == [] then []
    else
      var init := KeptPlaces(v, bg, docs[..|docs| - 1]);
      if Adjacent(v, docs[|docs| - 1], bg) then init + [|docs| - 1] else init
  }

  /** `KeepAdjacent` drops candidates but never reorders them. */
  lemma {:induction false} KeepAdjacentIsSubsequence(v: Viewer, bg: Bigram, docs: seq<int>)
    requires WellFormed(v)
    ensures SubsequenceAt(KeepAdjacent(v, bg, docs), docs, KeptPlaces(v, bg, docs))
    decreases |docs|
  {
    if docs != [] {
      var init := docs[..|docs| - 1];
      KeepAdjacentIsSubsequence(v, bg, init);
      var r0, idx0 := KeepAdjacent(v, bg, init), KeptPlaces(v, bg, init);
      assert forall i :: 0 <= i < |idx0| ==> idx0[i] < |init| && docs[idx0[i]] == init[idx0[i]];
    }
  }

  /** What `hasPhrase` returns: the `booleanFilter` candidates for both terms
      that hold the two terms at consecutive offsets. */
  function PhraseMatches(v: Viewer, bg: Bigram): (r: seq<int>)
    requires WellFormed(v)
    ensures StrictlyAscending(r)
  {
    KeepAdjacent(v, bg, BooleanFilter(v, [bg.n1, bg.n2]))
  }

  /** A document matches a bigram iff it holds both terms and some offset p
      of the first has p + 1 among the second's; and the matches keep the
      candidates' order. */
  lemma PhraseMatchesMembers(v: Viewer, bg: Bigram, x: int)
    requires WellFormed(v)
    ensures x in PhraseMatches(v, bg) <==>
            x in Postings(v, bg.n1) && x in Postings(v, bg.n2) &&
            exists p :: p in GetPositionIndices(v, x, bg.n1) && p + 1 in GetPositionIndices(v, x, bg.n2)
    ensures SubsequenceAt(PhraseMatches(v, bg), BooleanFilter(v, [bg.n1, bg.n2]),
                          KeptPlaces(v, bg, BooleanFilter(v, [bg.n1, bg.n2])))
  {
    var candidates := BooleanFilter(v, [bg.n1, bg.n2]);
    assert x in candidates <==> x in Postings(v, bg.n1) && x in Postings(v, bg.n2) by {
      assert forall t :: t in [bg.n1, bg.n2] <==> t == bg.n1 || t == bg.n2;
    }
    AdjacentOffsets(v, x, bg);
    KeepAdjacentMembers(v, bg, candidates, x);
    KeepAdjacentIsSubsequence(v, bg, candidates);
  }

  /** One candidate's test in `hasPhrase`: fetches both position lists,
      decrements the second in place and intersects. */
  method AlignedCommon(viewer: Viewer, id: int, bigram: Bigram) returns (common: seq<int>)
    requires WellFormed(viewer)
    ensures common == Intersect(GetPositionIndices(viewer, id, bigram.n1),
                                Shifted(GetPositionIndices(viewer, id, bigram.n2)))
  {
    var pos1 := GetPositionIndices(viewer, id, bigram.n1);
    var p2 := GetPositionIndices(viewer, id, bigram.n2);
    var pos2 := new int[|p2|](j requires 0 <= j < |p2| => p2[j]);
    assert pos2[..] == p2;
    DecrementAll(pos2);
    common := Intersect(pos1, pos2[..]);
  }

  /** Extending the candidates by one extends the kept ones by it exactly
      when it holds the phrase. */
  lemma KeepAdjacentSnoc(v: Viewer, bg: Bigram, docs: seq<int>, k: int)
    requires WellFormed(v) && 0 <= k < |docs|
    ensures KeepAdjacent(v, bg, docs[..k + 1]) ==
            KeepAdjacent(v, bg, docs[..k]) + (if Adjacent(v, docs[k], bg) then [docs[k]] else [])
  {
    assert docs[..k + 1][..k] == docs[..k];
  }

  /** `hasPhrase`: filters the candidates of `booleanFilter` by adjacency,
      shifting the second term's offsets one to the left and intersecting. */
  method HasPhrase(bigram: Bigram, viewer: Viewer) returns (rv: seq<int>)
    requires WellFormed(viewer)
    ensures rv == PhraseMatches(viewer, bigram)
  {
    var docIds := BooleanFilter(viewer, [bigram.n1, bigram.n2]);
    rv := [];
    for k := 0 to |docIds|
      invariant rv == KeepAdjacent(viewer, bigram, docIds[..k])
    {
      var id := docIds[k];
      var common := AlignedCommon(viewer, id, bigram);
      AdjacentIffCommon(viewer, id, bigram);
      KeepAdjacentSnoc(viewer, bigram, docIds, k);
      if |common| > 0 {
        rv := rv + [id];
      }
    }
    assert docIds[..|docIds|] == docIds;
  }

  ghost predicate AllAscending(ls: seq<seq<int>>) {
    forall i :: 0 <= i < |ls| ==> StrictlyAscending(ls[i])
  }

  /** Left fold of `intersect` over a non-empty list of ascending lists. */
  function IntersectAll(ls: seq<seq<int>>): (r: seq<int>)
    requires |ls| >= 1 && AllAscending(ls)
    ensures StrictlyAscending(r)
    decreases |ls|
  {
    if |ls| == 1 then ls[0]
    else
      Intersect(IntersectAll(ls[..|ls| - 1]), ls[|ls| - 1])
  }

  /** The fold holds exactly the ids present in every list. */
  lemma {:induction false} IntersectAllMembers(ls: seq<seq<int>>, x: int)
    requires |ls| >= 1 && AllAscending(ls)
    ensures x in IntersectAll(ls) <==> forall j :: 0 <= j < |ls| ==> x in ls[j]
    decreases |ls|
  {
    if |ls| > 1 {
      var init := ls[..|ls| - 1];
      assert forall j :: 0 <= j < |init| ==> init[j] == ls[j];
      IntersectAllMembers(init, x);
    }
  }

  /** Two ascending lists with the same elements are equal. */
  lemma {:induction false} AscendingUnique(a: seq<int>, b: seq<int>)
    requires StrictlyAscending(a) && StrictlyAscending(b)
    requires forall x :: x in a <==> x in b
    ensures a == b
    decreases |a|
  {
    if a != [] {
      assert a[0] in a;
    }
    if b != [] {
      assert b[0] in b;
    }
    if a != [] {
      assert a[0] in b;
      assert b != [];
      assert b[0] in a;
      var i :| 0 <= i < |a| && a[i] == b[0];
      var j :| 0 <= j < |b| && b[j] == a[0];
      assert a[0] == b[0];
      forall x ensures x in a[1..] <==> x in b[1..] {
        if x in a[1..] {
          var k :| 0 <= k < |a[1..]| && a[1..][k] == x;
          assert x in b && x != b[0];
          var m :| 0 <= m < |b| && b[m] == x;
          assert b[1..][m - 1] == x;
        }
        if x in b[1..] {
          var k :| 0 <= k < |b[1..]| && b[1..][k] == x;
          assert x in a && x != a[0];
          var m :| 0 <= m < |a| && a[m] == x;
          assert a[1..][m - 1] == x;
        }
      }
      AscendingUnique(a[1..], b[1..]);
      assert a == [a[0]] + a[1..] && b == [b[0]] + b[1..];
    }
  }

  /** Intersecting an ascending list with itself gives it back. */
  lemma IntersectSelf(a: seq<int>)
    requires StrictlyAscending(a)
    ensures Intersect(a, a) == a
  {
    AscendingUnique(Intersect(a, a), a);
  }

  /** Folding a list with itself gives it back. */
  lemma IntersectAllTwice(a: seq<int>)
    requires StrictlyAscending(a)
    ensures IntersectAll([a, a]) == a
  {
    assert [a, a][..1] == [a];
    IntersectSelf(a);
  }

  /** The order in which the lists are intersected does not change the
      result: any permutation of the lists folds to the same list. */
  lemma IntersectAllReorder(ls: seq<seq<int>>, ms: seq<seq<int>>)
    requires |ls| >= 1 && AllAscending(ls)
    requires multiset(ms) == multiset(ls)
    ensures |ms| >= 1 && AllAscending(ms)
    ensures IntersectAll(ms) == IntersectAll(ls)
  {
    assert |ms| == |multiset(ms)| == |ls|;
    assert forall l :: l in ms <==> l in ls by {
      forall l ensures l in ms <==> l in ls {
        assert l in ms <==> l in multiset(ms);
        assert l in ls <==> l in multiset(ls);
      }
    }
    assert AllAscending(ms) by {
      forall j | 0 <= j < |ms| ensures StrictlyAscending(ms[j]) {
        assert ms[j] in ls;
      }
    }
    forall x ensures x in IntersectAll(ms) <==> x in IntersectAll(ls) {
      IntersectAllMembers(ls, x);
      IntersectAllMembers(ms, x);
      if x in IntersectAll(ls) {
        forall j | 0 <= j < |ms| ensures x in ms[j] {
          assert ms[j] in ls;
          var i :| 0 <= i < |ls| && ls[i] == ms[j];
        }
      }
      if x in IntersectAll(ms) {
        forall j | 0 <= j < |ls| ensures x in ls[j] {
          assert ls[j] in ms;
          var i :| 0 <= i < |ms| && ms[i] == ls[j];
        }
      }
    }
    AscendingUnique(IntersectAll(ms), IntersectAll(ls));
  }

  /** The per-bigram match lists of a query of at least two terms. */
  function BigramMatches(v: Viewer, query: seq<string>): (ls: seq<seq<int>>)
    requires WellFormed(v) && |query| >= 2
    ensures |ls| == |query| - 1
    ensures forall k :: 0 <= k < |ls| ==> ls[k] == PhraseMatches(v, Bigram(query[k], query[k + 1]))
    ensures AllAscending(ls)
  {
    seq(|query| - 1, k requires 0 <= k < |query| - 1 => PhraseMatches(v, Bigram(query[k], query[k + 1])))
  }

  /** What `searchPhrase` returns. */
  function PhraseSearch(v: Viewer, query: seq<string>): (r: seq<int>)
    requires WellFormed(v)
    ensures StrictlyAscending(r)
  {
    if |query| <= 1 then BooleanFilter(v, query) else IntersectAll(BigramMatches(v, query))
  }

  /** A query of two or more terms matches exactly the documents that match
      every one of its bigrams. */
  lemma PhraseSearchMembers(v: Viewer, query: seq<string>, x: int)
    requires WellFormed(v) && |query| >= 2
    ensures x in PhraseSearch(v, query) <==>
            forall k :: 0 <= k < |query| - 1 ==> x in PhraseMatches(v, Bigram(query[k], query[k + 1]))
  {
    var ls := BigramMatches(v, query);
    IntersectAllMembers(ls, x);
    assert PhraseSearch(v, query) == IntersectAll(ls);
  }

  /** The result is contained in every bigram's matches, in particular in the
      smallest of them. */
  lemma PhraseSearchWithinEach(v: Viewer, query: seq<string>, k: int)
    requires WellFormed(v) && 0 <= k < |query| - 1
    ensures forall x :: x in PhraseSearch(v, query) ==> x in PhraseMatches(v, Bigram(query[k], query[k + 1]))
  {
    forall x | x in PhraseSearch(v, query)
      ensures x in PhraseMatches(v, Bigram(query[k], query[k + 1]))
    {
      PhraseSearchMembers(v, query, x);
    }
  }

  /** The `hasPhrase` result of every bigram, in query order. */
  method CollectMatches(bigrams: seq<Bigram>, viewer: Viewer) returns (docWithBigrams: seq<seq<int>>)
    requires WellFormed(viewer)
    ensures |docWithBigrams| == |bigrams|
    ensures forall j :: 0 <= j < |bigrams| ==> docWithBigrams[j] == PhraseMatches(viewer, bigrams[j])
  {
    docWithBigrams := [];
    for k := 0 to |bigrams|
      invariant |docWithBigrams| == k
      invariant forall j :: 0 <= j < k ==> docWithBigrams[j] == PhraseMatches(viewer, bigrams[j])
    {
      var matches := HasPhrase(bigrams[k], viewer);
      docWithBigrams := docWithBigrams + [matches];
    }
  }

  /** Folds `intersect` over the lists from the first on. */
  method IntersectInOrder(docWithBigrams: seq<seq<int>>) returns (docIDs: seq<int>)
    requires |docWithBigrams| >= 1 && AllAscending(docWithBigrams)
    ensures docIDs == IntersectAll(docWithBigrams)
  {
    docIDs := docWithBigrams[0];
    for i := 1 to |docWithBigrams|
      invariant docIDs == IntersectAll(docWithBigrams[..i])
    {
      assert docWithBigrams[..i + 1][..i] == docWithBigrams[..i];
      assert docWithBigrams[i] in docWithBigrams;
      docIDs := Intersect(docIDs, docWithBigrams[i]);
    }
    assert docWithBigrams[..|docWithBigrams|] == docWithBigrams;
  }

  /** `searchPhrase`: short queries fall back to `booleanFilter`; longer ones
      intersect the per-bigram matches, smallest list first. */
  method SearchPhrase(query: seq<string>, viewer: Viewer) returns (docIDs: seq<int>)
    requires WellFormed(viewer)
    ensures docIDs == PhraseSearch(viewer, query)
    ensures |query| <= 1 ==> docIDs == BooleanFilter(viewer, query)
  {
    if |query| <= 1 {
      return BooleanFilter(viewer, query);
    }
    var bigrams := SplitToBigrams(query);
    var docWithBigrams := CollectMatches(bigrams, viewer);
    ghost var unsorted := docWithBigrams;
    assert unsorted == BigramMatches(viewer, query);
    docWithBigrams := Sorting.SortBy(docWithBigrams, (l: seq<int>) => |l|);
    IntersectAllReorder(unsorted, docWithBigrams);
    docIDs := IntersectInOrder(docWithBigrams);
  }

  /** A store with two documents holding "quick", "brown" and "fox": in
      document 3 at offsets 0, 1, 2; in document 4 at offsets 0, 5, 2. */
  ghost predicate FoxStore(v: Viewer)
    requires WellFormed(v)
  {
    && Postings(v, "quick") == [3, 4] && Postings(v, "brown") == [3, 4] && Postings(v, "fox") == [3, 4]
    && GetPositionIndices(v, 3, "quick") == [0]
    && GetPositionIndices(v, 3, "brown") == [1]
    && GetPositionIndices(v, 3, "fox") == [2]
    && GetPositionIndices(v, 4, "quick") == [0]
    && GetPositionIndices(v, 4, "brown") == [5]
    && GetPositionIndices(v, 4, "fox") == [2]
  }

  /** Such a store exists. */
  lemma FoxStoreExists()
    ensures exists v :: WellFormed(v) && FoxStore(v)
  {
    var v := Viewer(map["quick" := [3, 4], "brown" := [3, 4], "fox" := [3, 4]],
                    map[(3, "quick") := [0], (3, "brown") := [1], (3, "fox") := [2],
                        (4, "quick") := [0], (4, "brown") := [5], (4, "fox") := [2]]);
    assert WellFormed(v) && FoxStore(v);
  }

  /** Every pair of the three terms has both fox documents as candidates. */
  lemma FoxCandidates(v: Viewer, bg: Bigram)
    requires WellFormed(v) && FoxStore(v)
    requires bg.n1 in {"quick", "brown", "fox"} && bg.n2 in {"quick", "brown", "fox"}
    ensures BooleanFilter(v, [bg.n1, bg.n2]) == [3, 4]
  {
    assert [bg.n1, bg.n2][..1] == [bg.n1];
    assert BooleanFilter(v, [bg.n1]) == [3, 4];
    IntersectSelf([3, 4]);
  }

  /** A bigram that is a phrase in document 3 but not in document 4 matches
      document 3 alone. */
  lemma FoxMatchesThree(v: Viewer, bg: Bigram)
    requires WellFormed(v) && FoxStore(v)
    requires bg.n1 in {"quick", "brown", "fox"} && bg.n2 in {"quick", "brown", "fox"}
    requires Adjacent(v, 3, bg) && !Adjacent(v, 4, bg)
    ensures PhraseMatches(v, bg) == [3]
  {
    FoxCandidates(v, bg);
    forall x ensures x in PhraseMatches(v, bg) <==> x in [3] {
      KeepAdjacentMembers(v, bg, [3, 4], x);
    }
    AscendingUnique(PhraseMatches(v, bg), [3]);
  }

  /** A bigram that is a phrase in neither fox document matches nothing. */
  lemma FoxMatchesNone(v: Viewer, bg: Bigram)
    requires WellFormed(v) && FoxStore(v)
    requires bg.n1 in {"quick", "brown", "fox"} && bg.n2 in {"quick", "brown", "fox"}
    requires !Adjacent(v, 3, bg) && !Adjacent(v, 4, bg)
    ensures PhraseMatches(v, bg) == []
  {
    FoxCandidates(v, bg);
    forall x ensures x !in PhraseMatches(v, bg) {
      KeepAdjacentMembers(v, bg, [3, 4], x);
    }
    AscendingUnique(PhraseMatches(v, bg), []);
  }

  /** Bigrams are ordered: "quick brown" matches document 3, while
      "brown quick" matches nothing. */
  lemma BigramOrderMatters(v: Viewer)
    requires WellFormed(v) && FoxStore(v)
    ensures PhraseMatches(v, Bigram("quick", "brown")) == [3]
    ensures PhraseMatches(v, Bigram("brown", "quick")) == []
  {
    assert Adjacent(v, 3, Bigram("quick", "brown")) by {
      assert GetPositionIndices(v, 3, "brown")[0] == GetPositionIndices(v, 3, "quick")[0] + 1;
    }
    FoxMatchesThree(v, Bigram("quick", "brown"));
    FoxMatchesNone(v, Bigram("brown", "quick"));
  }

  /** Document 3 holds both "quick brown" and "brown fox" as phrases,
      document 4 neither. */
  lemma FoxPhrases(v: Viewer)
    requires WellFormed(v) && FoxStore(v)
    ensures PhraseMatches(v, Bigram("quick", "brown")) == [3]
    ensures PhraseMatches(v, Bigram("brown", "fox")) == [3]
  {
    assert Adjacent(v, 3, Bigram("quick", "brown")) by {
      assert GetPositionIndices(v, 3, "brown")[0] == GetPositionIndices(v, 3, "quick")[0] + 1;
    }
    assert Adjacent(v, 3, Bigram("brown", "fox")) by {
      assert GetPositionIndices(v, 3, "fox")[0] == GetPositionIndices(v, 3, "brown")[0] + 1;
    }
    FoxMatchesThree(v, Bigram("quick", "brown"));
    FoxMatchesThree(v, Bigram("brown", "fox"));
  }

  /** All three terms occur in both fox documents. */
  lemma FoxFilterThree(v: Viewer)
    requires WellFormed(v) && FoxStore(v)
    ensures BooleanFilter(v, ["quick", "brown", "fox"]) == [3, 4]
  {
    FoxCandidates(v, Bigram("quick", "brown"));
    assert ["quick", "brown", "fox"][..2] == ["quick", "brown"];
    IntersectSelf([3, 4]);
  }

  /** The phrase "quick brown fox" matches document 3 only, although
      document 4 holds all three terms. */
  lemma PhraseSearchExample(v: Viewer)
    requires WellFormed(v) && FoxStore(v)
    ensures BooleanFilter(v, ["quick", "brown", "fox"]) == [3, 4]
    ensures PhraseSearch(v, ["quick", "brown", "fox"]) == [3]
  {
    FoxFilterThree(v);
    FoxPhrases(v);
    var ls := BigramMatches(v, ["quick", "brown", "fox"]);
    assert ls[0] == [3] && ls[1] == [3];
    assert ls == [[3], [3]];
    IntersectAllTwice([3]);
  }
}
