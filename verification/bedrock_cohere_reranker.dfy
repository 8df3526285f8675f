/** The post-processing of the Bedrock Cohere reranker (main/vector_store/bedrock_cohere_reranker.py):
    the service answers with ranked entries, each naming a candidate by its position and
    carrying a relevance score; the entries that name a real candidate become (text, score)
    pairs, sorted by descending score with ties in the order the service gave them. Any
    exception (the call, the body, the JSON) yields no documents.

    The call to the service is not modelled: its decoded "results" list, or the failure,
    is the parameter `response`. A body without "results" is the empty list. */
module BedrockCohereReranker {
  import opened Wrappers

  /** One entry of the "results" list: `r.get("index")` and `r.get("relevance_score")`. */
  datatype RerankEntry = RerankEntry(index: Option<int>, relevanceScore: Option<real>)

  /** `r.get("relevance_score", 0.0)` */
  function Score(e: RerankEntry): real {
    if e.relevanceScore.Some? then e.relevanceScore.value else 0.0
  }

  /** Whether an entry names a candidate: `idx is not None and 0 <= idx < len(documents)`. */
  predicate NamesCandidate(e: RerankEntry, documents: seq<string>) {
    e.index.Some? && 0 <= e.index.value < |documents|
  }

  /** The (text, score) pairs of the entries that name a candidate, in the service's order. */
  function Picked(entries: seq<RerankEntry>, documents: seq<string>): (r: seq<(string, real)>)
    ensures |r| <= |entries|
    ensures forall p :: p in r ==> p.0 in documents
  {
    if entries == [] then []
    else
      var e := entries[|entries| - 1];
      Picked(entries[..|entries| - 1], documents)
        + (if NamesCandidate(e, documents) then [(documents[e.index.value], Score(e))] else [])
  }

  /** Non-increasing scores. */
  predicate SortedDesc(s: seq<(string, real)>) {
    forall i, j :: 0 <= i < j < |s| ==> s[i].1 >= s[j].1
  }

  /** The entries of `s` scored exactly `v`, in order. */
  function WithScore(s: seq<(string, real)>, v: real): (r: seq<(string, real)>)
    ensures |r| <= |s|
  {
    if s == [] then [] else WithScore(s[..|s| - 1], v) + (if s[|s| - 1].1 == v then [s[|s| - 1]] else [])
  }

  lemma {:induction false} WithScoreAppend(a: seq<(string, real)>, b: seq<(string, real)>, v: real)
    ensures WithScore(a + b, v) == WithScore(a, v) + WithScore(b, v)
    decreases |b|
  {
    if b == [] {
      assert a + b == a;
    } else {
      var init := b[..|b| - 1];
      assert (a + b)[..|a + b| - 1] == a + init;
      WithScoreAppend(a, init, v);
    }
  }

  /** `x` placed into the sorted `s` after every entry scored at least as high. */
  function Insert(s: seq<(string, real)>, x: (string, real)): (r: seq<(string, real)>)
    requires SortedDesc(s)
    ensures SortedDesc(r)
    ensures multiset(r) == multiset(s) + multiset{x}
    ensures forall p :: p in r ==> p in s || p == x
    ensures |r| == |s| + 1
  {
    if s == [] || s[|s| - 1].1 >= x.1 then s + [x]
    else
      var init, last := s[..|s| - 1], s[|s| - 1];
      SplitLast(s);
      SortedInit(s);
      var front := Insert(init, x);
      LastBelow(init, last, x, front);
      front + [last]
  }

  /** When `x` outscores the last entry, inserting it into the entries before and then
      appending the last entry again keeps the list sorted and holds the same entries. */
  lemma LastBelow(init: seq<(string, real)>, last: (string, real), x: (string, real), front: seq<(string, real)>)
    requires SortedDesc(init + [last]) && last.1 < x.1
    requires SortedDesc(front) && multiset(front) == multiset(init) + multiset{x}
    requires forall p :: p in front ==> p in init || p == x
    ensures SortedDesc(front + [last])
    ensures multiset(front + [last]) == multiset(init + [last]) + multiset{x}
    ensures forall p :: p in front + [last] ==> p in init + [last] || p == x
  {
    var s := init + [last];
    assert forall k :: 0 <= k < |init| ==> init[k].1 >= last.1 by {
      forall k | 0 <= k < |init| ensures init[k].1 >= last.1 {
        assert s[k] == init[k] && s[|init|] == last;
      }
    }
    assert forall k :: 0 <= k < |front| ==> front[k].1 >= last.1 by {
      forall k | 0 <= k < |front| ensures front[k].1 >= last.1 {
        assert front[k] in front;
      }
    }
  }

  /** `list.sort(key=score, reverse=True)`: a stable sort by descending score, as the
      successive insertion of each entry in the order given. */
  function SortByScoreDesc(s: seq<(string, real)>): (r: seq<(string, real)>)
    ensures SortedDesc(r)
    ensures multiset(r) == multiset(s)
    ensures |r| == |s|
  {
    if s == [] then []
    else
      assert s == s[..|s| - 1] + [s[|s| - 1]];
      Insert(SortByScoreDesc(s[..|s| - 1]), s[|s| - 1])
  }

  lemma {:induction false} InsertKeepsTies(s: seq<(string, real)>, x: (string, real), v: real)
    requires SortedDesc(s)
    ensures WithScore(Insert(s, x), v) == WithScore(s, v) + (if x.1 == v then [x] else [])
    decreases |s|
  {
    if s == [] || s[|s| - 1].1 >= x.1 {
      WithScoreAppend(s, [x], v);
      assert [x][..0] == [];
    } else {
      var init, last := s[..|s| - 1], s[|s| - 1];
      SortedInit(s);
      InsertKeepsTies(init, x, v);
      InsertPastLast(s, x);
      WithScoreSnoc(Insert(init, x), last, v);
      SplitLast(s);
      WithScoreSnoc(init, last, v);
    }
  }

  /** An entry that outscores the last one is inserted among the entries before it. */
  lemma InsertPastLast(s: seq<(string, real)>, x: (string, real))
    requires SortedDesc(s) && s != [] && s[|s| - 1].1 < x.1
    ensures SortedDesc(s[..|s| - 1])
    ensures Insert(s, x) == Insert(s[..|s| - 1], x) + [s[|s| - 1]]
  {
  }

  lemma WithScoreSnoc(a: seq<(string, real)>, y: (string, real), v: real)
    ensures WithScore(a + [y], v) == WithScore(a, v) + (if y.1 == v then [y] else [])
  {
    assert (a + [y])[..|a|] == a;
  }

  /** The sort is stable: the entries of any one score keep their relative order. */
  lemma {:induction false} SortKeepsTies(s: seq<(string, real)>, v: real)
    ensures WithScore(SortByScoreDesc(s), v) == WithScore(s, v)
  {
    if s != [] {
      var init := s[..|s| - 1];
      SortKeepsTies(init, v);
      InsertKeepsTies(SortByScoreDesc(init), s[|s| - 1], v);
    }
  }

  /** Dropping the last entry keeps a list sorted, and that entry scores no higher than the one before it. */
  lemma SortedInit(s: seq<(string, real)>)
    requires SortedDesc(s) && s != []
    ensures SortedDesc(s[..|s| - 1])
    ensures |s| > 1 ==> s[|s| - 2].1 >= s[|s| - 1].1
  {
  }

  /** An entry scoring no higher than the last one goes at the end. */
  lemma InsertAtEnd(s: seq<(string, real)>, x: (string, real))
    requires SortedDesc(s)
    requires s == [] || s[|s| - 1].1 >= x.1
    ensures Insert(s, x) == s + [x]
  {
  }

  lemma SplitLast(s: seq<(string, real)>)
    requires s != []
    ensures s[..|s| - 1] + [s[|s| - 1]] == s
  {
  }

  /** One step of the successive insertion. */
  lemma SortStep(s: seq<(string, real)>)
    requires s != []
    ensures SortByScoreDesc(s) == Insert(SortByScoreDesc(s[..|s| - 1]), s[|s| - 1])
  {
  }

  /** Sorting an already sorted list changes nothing. */
  lemma {:induction false} SortedIsFixed(s: seq<(string, real)>)
    requires SortedDesc(s)
    ensures SortByScoreDesc(s) == s
  {
    if s != [] {
      var init, last := s[..|s| - 1], s[|s| - 1];
      SortedInit(s);
      SortedIsFixed(init);
      InsertAtEnd(init, last);
      SortStep(s);
      SplitLast(s);
    }
  }

  /** `rerank`: keeps the entries that name a candidate, then sorts them by descending
      score; a failed call, body or parse gives the empty list. */
  method Rerank(response: Result<seq<RerankEntry>>, documents: seq<string>) returns (reranked: seq<(string, real)>)
    ensures response.Err? ==> reranked == []
    ensures response.Ok? ==> reranked == SortByScoreDesc(Picked(response.value, documents))
    ensures SortedDesc(reranked)
    ensures forall p :: p in reranked ==> p.0 in documents
  {
    if response.Err? {
      return [];
    }
    var entries := response.value;
    var picked: seq<(string, real)> := [];
    for i := 0 to |entries|
      invariant picked == Picked(entries[..i], documents)
    {
      assert entries[..i + 1][..i] == entries[..i];
      var e := entries[i];
      if e.index.Some? && 0 <= e.index.value < |documents| {
        var score := if e.relevanceScore.Some? then e.relevanceScore.value else 0.0;
        picked := picked + [(documents[e.index.value], score)];
      }
    }
    assert entries[..|entries|] == entries;
    reranked := SortByScoreDesc(picked);
    assert forall p :: p in reranked ==> p in multiset(picked);
  }

  /** Exactly the entries naming a candidate contribute, each once: as a multiset the
      result is the picked pairs, and an entry whose position is missing or out of range
      contributes nothing. */
  lemma {:induction false} PickedCount(entries: seq<RerankEntry>, documents: seq<string>)
    ensures |Picked(entries, documents)| == |set i | 0 <= i < |entries| && NamesCandidate(entries[i], documents)|
  {
    var valid := set i | 0 <= i < |entries| && NamesCandidate(entries[i], documents);
    if entries != [] {
      var n := |entries| - 1;
      var init := entries[..n];
      PickedCount(init, documents);
      var before := set i | 0 <= i < n && NamesCandidate(init[i], documents);
      assert before == set i | 0 <= i < n && NamesCandidate(entries[i], documents);
      if NamesCandidate(entries[n], documents) {
        assert valid == before + {n};
      } else {
        assert valid == before;
      }
    } else {
      assert valid == {};
    }
  }
}
