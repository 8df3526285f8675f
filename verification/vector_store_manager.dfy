/** Retrieval (backend/main/retrieval/vector_store/vector_store_manager.py): search the
    store for the query, keep the non-empty hit texts as the candidate documents, then
    either merge the reranker's choice against them or, when some hit scores at least the
    threshold, merge all hits against them.

    The merge's neighbours are neighbours in the rank-ordered candidate list, not positions
    in a source document. The merge used is the corrected one of MergeUtils; with proximity
    merging off, which is the default, it coincides with the merge as written. */
module VectorStoreManager {
  import opened Wrappers
  import opened PyStr
  import opened Settings
  import opened PySeq
  import opened MergeUtils
  import FaissIndexer

  /** `reranker.rerank(query, documents, top_n)`: (text, score) pairs. */
  type Reranker = (string, seq<string>, int) -> seq<(string, real)>

  /** The default `score_threshold` of `retrieve_relevant_docs`. */
  const DefaultScoreThreshold: real := 0.2

  /** `[chunk for chunk, _ in top_chunks if chunk]`: the non-empty hit texts, in rank order. */
  function CandidateDocs(hits: seq<(string, real)>): (r: seq<string>)
    ensures |r| <= |hits|
    ensures "" !in r
  {
    if hits == [] then []
    else
      var last := hits[|hits| - 1].0;
      CandidateDocs(hits[..|hits| - 1]) + (if last != "" then [last] else [])
  }

  /** A text is a candidate exactly when it is the non-empty text of some hit. */
  lemma {:induction false} CandidateDocsMembership(hits: seq<(string, real)>)
    ensures forall t :: t in CandidateDocs(hits) <==>
      t != "" && exists i :: 0 <= i < |hits| && hits[i].0 == t
  {
    if hits != [] {
      var init := hits[..|hits| - 1];
      CandidateDocsMembership(init);
      assert forall i :: 0 <= i < |init| ==> init[i] == hits[i];
      assert hits[|hits| - 1] == hits[|hits| - 1];
    }
  }

  /** `max(score for _, score in top_chunks)` */
  function MaxScore(hits: seq<(string, real)>): (m: real)
    requires hits != []
    ensures forall i :: 0 <= i < |hits| ==> hits[i].1 <= m
    ensures exists i :: 0 <= i < |hits| && hits[i].1 == m
  {
    if |hits| == 1 then hits[0].1
    else
      var front := MaxScore(hits[..|hits| - 1]);
      assert forall i :: 0 <= i < |hits| - 1 ==> hits[..|hits| - 1][i] == hits[i];
      if hits[|hits| - 1].1 > front then hits[|hits| - 1].1 else front
  }

  /** `retrieve_relevant_docs` once the store has answered with `topChunks`. */
  function Retrieve(topChunks: seq<(string, real)>, query: string, reranker: Option<Reranker>, topN: int,
                    cfg: Config, threshold: real): (r: seq<string>)
    ensures topChunks == [] ==> r == []
    ensures reranker.None? && (exists i :: 0 <= i < |topChunks| && topChunks[i].1 >= threshold) ==>
      r == MergeAdjacent(topChunks, CandidateDocs(topChunks), cfg.mergeWindowSize, cfg.proximityMerge, true)
    ensures reranker.None? && (forall i :: 0 <= i < |topChunks| ==> topChunks[i].1 < threshold) ==> r == []
    ensures |r| <= |CandidateDocs(topChunks)| <= |topChunks|
    // with a non-negative window every passage is the joined text of a run of candidate
    // documents around the position of a candidate that some hit, or reranked text, names
    ensures cfg.mergeWindowSize >= 0 && reranker.None? ==> forall t :: t in r ==>
      exists c :: c in Found(topChunks, CandidateDocs(topChunks)) && HoldsCentre(CandidateDocs(topChunks), t, c)
    ensures cfg.mergeWindowSize >= 0 && reranker.Some? ==> forall t :: t in r ==>
      exists c :: c in Found(reranker.value(query, CandidateDocs(topChunks), topN), CandidateDocs(topChunks))
        && HoldsCentre(CandidateDocs(topChunks), t, c)
  {
    if topChunks == [] then []
    else
      var docs := CandidateDocs(topChunks);
      match reranker
      case Some(rerank) =>
        var merged := MergeAdjacent(rerank(query, docs, topN), docs, cfg.mergeWindowSize, cfg.proximityMerge, true);
        MergeCount(docs, cfg.mergeWindowSize, cfg.proximityMerge, true, Initial, Centres(rerank(query, docs, topN), docs));
        if cfg.mergeWindowSize >= 0 then
          MergedPassagesAreRuns(rerank(query, docs, topN), docs, cfg.mergeWindowSize, cfg.proximityMerge);
          merged
        else merged
      case None =>
        if MaxScore(topChunks) >= threshold then
          MergeCount(docs, cfg.mergeWindowSize, cfg.proximityMerge, true, Initial, Centres(topChunks, docs));
          if cfg.mergeWindowSize >= 0 then
            MergedPassagesAreRuns(topChunks, docs, cfg.mergeWindowSize, cfg.proximityMerge);
            MergeAdjacent(topChunks, docs, cfg.mergeWindowSize, cfg.proximityMerge, true)
          else MergeAdjacent(topChunks, docs, cfg.mergeWindowSize, cfg.proximityMerge, true)
        else []
  }

  /** With a reranker the score threshold is never consulted. */
  lemma RerankerIgnoresThreshold(topChunks: seq<(string, real)>, query: string, rerank: Reranker, topN: int,
                                 cfg: Config, t1: real, t2: real)
    ensures Retrieve(topChunks, query, Some(rerank), topN, cfg, t1) == Retrieve(topChunks, query, Some(rerank), topN, cfg, t2)
  {
  }

  /** Under the default configuration (no proximity merging) retrieval gives the same
      passages as the merge as written. */
  lemma DefaultMergeIsAsWritten(topChunks: seq<(string, real)>, query: string, reranker: Option<Reranker>,
                                topN: int, cfg: Config, threshold: real)
    requires !cfg.proximityMerge
    ensures var docs := CandidateDocs(topChunks);
      var results := if reranker.Some? then reranker.value(query, docs, topN) else topChunks;
      Retrieve(topChunks, query, reranker, topN, cfg, threshold) ==
        if topChunks == [] || (reranker.None? && MaxScore(topChunks) < threshold) then []
        else MergeAdjacent(results, docs, cfg.mergeWindowSize, false, false)
  {
    var docs := CandidateDocs(topChunks);
    var results := if reranker.Some? then reranker.value(query, docs, topN) else topChunks;
    CorrectionOnlyAffectsProximity(docs, cfg.mergeWindowSize, Initial, Centres(results, docs));
  }

  lemma TwoHitDocs()
    ensures CandidateDocs([("x", 0.9), ("y", 0.5)]) == ["x", "y"]
  {
    var hits: seq<(string, real)> := [("x", 0.9), ("y", 0.5)];
    var none: seq<(string, real)> := [];
    assert hits[..1] == [("x", 0.9)] && hits[..1][..0] == none;
    assert CandidateDocs(hits[..1]) == ["x"];
  }

  lemma TwoHitFound()
    ensures Found([("x", 0.9), ("y", 0.5)], ["x", "y"]) == [0, 1]
  {
    var hits: seq<(string, real)> := [("x", 0.9), ("y", 0.5)];
    var none: seq<(string, real)> := [];
    var docs := ["x", "y"];
    assert hits[..1] == [("x", 0.9)] && hits[..1][..0] == none;
    assert IndexOf(docs, "x") == Some(0);
    assert docs[1..] == ["y"];
    assert IndexOf(docs, "y") == Some(1);
    assert Found(hits[..1], docs) == [0];
  }

  lemma AscendingZeroOne()
    ensures Ascending({0, 1}, 2) == [0, 1]
  {
    assert Ascending({0, 1}, 1) == [0];
  }

  /** The hits "x" and "y" name the candidate positions 0 and 1. */
  lemma TwoHitCentres()
    ensures CandidateDocs([("x", 0.9), ("y", 0.5)]) == ["x", "y"]
    ensures Centres([("x", 0.9), ("y", 0.5)], ["x", "y"]) == [0, 1]
  {
    TwoHitDocs();
    TwoHitFound();
    var found: set<nat> := set i | i in [0, 1];
    assert found == {0, 1};
    AscendingZeroOne();
  }

  /** Two hits that are adjacent in rank are merged into one passage whatever their places
      in the documents they came from: with the default window of 1, the hits "x" and "y"
      give the single passage "x\ny". */
  lemma RankNeighboursMerge(query: string)
    ensures Retrieve([("x", 0.9), ("y", 0.5)], query, None, TopNRerank, Defaults, DefaultScoreThreshold) == ["x\ny"]
  {
    var hits: seq<(string, real)> := [("x", 0.9), ("y", 0.5)];
    TwoHitDocs();
    assert hits[0].1 >= DefaultScoreThreshold;
    TwoHitsMerge();
  }

  /** The merge of the two hits with a window of 1: the first centre's window covers both
      candidates, so the second centre is skipped. */
  lemma TwoHitsMerge()
    ensures MergeAdjacent([("x", 0.9), ("y", 0.5)], ["x", "y"], 1, false, true) == ["x\ny"]
  {
    var docs := ["x", "y"];
    TwoHitCentres();
    var s1 := FirstWindowOfTwo();
    MergeFoldSnoc(docs, 1, false, true, Initial, [0, 1], 1);
    assert [0, 1][..1] == [0] && [0, 1][..2] == [0, 1];
  }

  /** The first centre's window is the two candidates joined. */
  lemma FirstWindowOfTwo() returns (s1: MergeState)
    ensures s1 == MergeFold(["x", "y"], 1, false, true, Initial, [0])
    ensures s1.merged == ["x\ny"] && 1 in s1.used
  {
    var docs := ["x", "y"];
    MergeFoldSnoc(docs, 1, false, true, Initial, [0], 0);
    assert [0][..1] == [0] && [0][..0] == [];
    s1 := MergeStep(docs, 1, false, true, Initial, 0);
    assert WindowStart(0, 1, false, -1, true) == 0;
    assert Slice(docs, 0, 2) == ["x", "y"];
    assert ["x", "y"][1..] == ["y"];
    assert Join("\n", ["x", "y"]) == "x" + "\n" + "y" == "x\ny";
  }

  /** `retrieve_relevant_docs`: the store's answer to the query (`hit` is what faiss returns
      for it), then the gate or the reranker. An IndexError raised by the search is raised
      here as well. */
  method RetrieveRelevantDocs(store: FaissIndexer.FaissStore, query: string, hit: seq<(real, int)>,
                              reranker: Option<Reranker>, topK: nat, topN: int, cfg: Config, threshold: real)
      returns (r: Result<seq<string>>)
    requires FaissIndexer.ValidHits([hit], topK, store.NTotal())
    ensures r.Ok? <==> FaissIndexer.Collect(hit, store.metadata).Ok?
    ensures r.Ok? ==> r.value == Retrieve(FaissIndexer.Collect(hit, store.metadata).value, query, reranker, topN, cfg, threshold)
    ensures store.Aligned() ==> r.Ok?
  {
    var topChunks := FaissIndexer.QueryFaissIndex(store, topK, hit);
    if topChunks.Err? {
      return Err(topChunks.error);
    }
    return Ok(Retrieve(topChunks.value, query, reranker, topN, cfg, threshold));
  }
}
