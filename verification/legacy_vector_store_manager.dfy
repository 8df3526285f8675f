/** The earlier vector store manager (main/retrieval/vector_store/vector_store_manager.py):
    a build that reuses any saved index unless forced, otherwise extracts, chunks and
    embeds every listed PDF one after another, skipping files that yield nothing; and a
    retrieval that returns the candidate texts themselves, without merging.

    Unlike the later builder, nothing here catches exceptions: a failing download,
    extraction, split or embedding ends the build with that error. The temporary file
    `download_pdf` (main/utils/s3_helper.py) writes is not modelled; its path is the
    parameter `tempPath`. The debug outputs written when DEBUG is set are left out. */
module LegacyVectorStoreManager {
  import opened Wrappers
  import opened Seqs
  import opened PyStr
  import opened PyPath
  import opened Settings
  import opened FileSystem
  import opened IndexBuilder
  import opened VectorStoreManager
  import FaissIndexer

  /** The build's surroundings: the listing and configuration of `base`, whether the
      extractor is the Textract one, the temporary path a download lands at, and the
      extractor, splitter and embedder. */
  datatype LegacyEnv = LegacyEnv(
    base: Env,
    textract: bool,
    tempPath: string -> string,
    extract: string -> Result<string>,
    chunk: string -> Result<seq<string>>,
    embed: seq<string> -> Result<seq<Vector>>)

  /** The path handed to the extractor: on S3 the key itself for Textract and the
      downloaded copy otherwise (a missing object raises); locally the file in SAMPLE_DIR. */
  function FilePath(e: LegacyEnv, file: string): (r: Result<string>)
    ensures e.base.cfg.useS3 && e.textract ==> r == Ok(file)
    ensures e.base.cfg.useS3 && !e.textract ==>
      r == (if file in e.base.bucket then Ok(e.tempPath(file)) else Err(NoSuchKey(file)))
    ensures !e.base.cfg.useS3 ==> r == Ok(PathJoin(e.base.cfg.sampleDir, file))
  {
    if e.base.cfg.useS3 then
      if e.textract then Ok(file)
      else if file in e.base.bucket then Ok(e.tempPath(file))
      else Err(NoSuchKey(file))
    else Ok(PathJoin(e.base.cfg.sampleDir, file))
  }

  /** One iteration of the build loop: the file's chunks and embeddings, nothing for a file
      with blank text, no chunks or no embeddings, or the error a stage raised. */
  function FileStep(e: LegacyEnv, file: string): (r: Result<(seq<string>, seq<Vector>)>)
    ensures r.Ok? ==> (r.value.0 == [] <==> r.value.1 == [])
    ensures r.Ok? && r.value.0 != [] ==>
      FilePath(e, file).Ok? && e.extract(FilePath(e, file).value).Ok? &&
      !IsBlank(e.extract(FilePath(e, file).value).value) &&
      e.chunk(e.extract(FilePath(e, file).value).value) == Ok(r.value.0) &&
      e.embed(r.value.0) == Ok(r.value.1)
  {
    match FilePath(e, file)
    case Err(err) => Err(err)
    case Ok(path) =>
      match e.extract(path)
      case Err(err) => Err(err)
      case Ok(text) =>
        if IsBlank(text) then Ok(([], []))
        else match e.chunk(text)
          case Err(err) => Err(err)
          case Ok(chunks) =>
            if chunks == [] then Ok(([], []))
            else match e.embed(chunks)
              case Err(err) => Err(err)
              case Ok(embeddings) => if embeddings == [] then Ok(([], [])) else Ok((chunks, embeddings))
  }

  /** The accumulated chunks and embeddings after the loop has run over `files`, or the
      first error raised. */
  function Accumulated(e: LegacyEnv, files: seq<string>): Result<(seq<string>, seq<Vector>)> {
    if files == [] then Ok(([], []))
    else
      match Accumulated(e, files[..|files| - 1])
      case Err(err) => Err(err)
      case Ok(acc) =>
        match FileStep(e, files[|files| - 1])
        case Err(err) => Err(err)
        case Ok(out) => Ok((acc.0 + out.0, acc.1 + out.1))
  }

  /** Combining the accumulations of two consecutive runs of files. */
  function Combine(x: Result<(seq<string>, seq<Vector>)>, y: Result<(seq<string>, seq<Vector>)>)
    : Result<(seq<string>, seq<Vector>)>
  {
    match x
    case Err(err) => Err(err)
    case Ok(p) =>
      match y
      case Err(err) => Err(err)
      case Ok(q) => Ok((p.0 + q.0, p.1 + q.1))
  }

  lemma AccumulatedSnoc(e: LegacyEnv, files: seq<string>, f: string)
    ensures Accumulated(e, files + [f]) == Combine(Accumulated(e, files), FileStep(e, f))
  {
    assert (files + [f])[..|files|] == files;
  }

  lemma AccumulatedUnfold(e: LegacyEnv, files: seq<string>)
    requires files != []
    ensures Accumulated(e, files) == Combine(Accumulated(e, files[..|files| - 1]), FileStep(e, files[|files| - 1]))
  {
  }

  /** The loop over `a + b` is the loop over `a` followed by the loop over `b`: the first
      error wins, and otherwise the outputs are concatenated in file order. */
  lemma {:induction false} AccumulatedAppend(e: LegacyEnv, a: seq<string>, b: seq<string>)
    ensures Accumulated(e, a + b) == Combine(Accumulated(e, a), Accumulated(e, b))
    decreases |b|
  {
    if b == [] {
      assert a + b == a;
      if Accumulated(e, a).Ok? {
        var p := Accumulated(e, a).value;
        assert p.0 + [] == p.0 && p.1 + [] == p.1;
      }
    } else {
      var init, last := b[..|b| - 1], b[|b| - 1];
      assert b == init + [last];
      assert a + b == (a + init) + [last];
      AccumulatedAppend(e, a, init);
      AccumulatedSnoc(e, a + init, last);
      AccumulatedSnoc(e, init, last);
      var x, y, z := Accumulated(e, a), Accumulated(e, init), FileStep(e, last);
      if x.Ok? && y.Ok? && z.Ok? {
        ConcatSnoc(x.value.0, y.value.0, z.value.0);
        ConcatSnoc(x.value.1, y.value.1, z.value.1);
      }
    }
  }

  /** A file that yields nothing is skipped: the files after it are processed as if it
      were not listed. */
  lemma SkippedFileChangesNothing(e: LegacyEnv, before: seq<string>, f: string, after: seq<string>)
    requires FileStep(e, f) == Ok(([], []))
    ensures Accumulated(e, before + [f] + after) == Accumulated(e, before + after)
  {
    AccumulatedAppend(e, before + [f], after);
    AccumulatedAppend(e, before, after);
    AccumulatedSnoc(e, before, f);
    if Accumulated(e, before).Ok? {
      var p := Accumulated(e, before).value;
      assert p.0 + [] == p.0 && p.1 + [] == p.1;
    }
  }

  /** A file whose text is blank yields nothing, whatever the splitter and the embedder. */
  lemma BlankTextIsSkipped(e: LegacyEnv, f: string)
    requires FilePath(e, f).Ok? && e.extract(FilePath(e, f).value).Ok?
    requires IsBlank(e.extract(FilePath(e, f).value).value)
    ensures FileStep(e, f) == Ok(([], []))
  {
  }

  /** With Textract on S3 a file's step does not depend on the bucket's contents. */
  lemma TextractStepIgnoresBucket(e: LegacyEnv, f: string, bucket: map<string, seq<byte>>)
    requires e.base.cfg.useS3 && e.textract
    ensures FileStep(e, f) == FileStep(e.(base := e.base.(bucket := bucket)), f)
  {
    var e' := e.(base := e.base.(bucket := bucket));
    assert FilePath(e, f) == Ok(f) == FilePath(e', f);
  }

  /** With Textract on S3 the bucket's contents are never consulted. */
  lemma {:induction false} TextractReadsKeysDirectly(e: LegacyEnv, files: seq<string>, bucket: map<string, seq<byte>>)
    requires e.base.cfg.useS3 && e.textract
    ensures Accumulated(e, files) == Accumulated(e.(base := e.base.(bucket := bucket)), files)
  {
    var e' := e.(base := e.base.(bucket := bucket));
    if files != [] {
      TextractReadsKeysDirectly(e, files[..|files| - 1], bucket);
      AccumulatedUnfold(e, files);
      AccumulatedUnfold(e', files);
      TextractStepIgnoresBucket(e, files[|files| - 1], bucket);
    }
  }

  /** The loop of `build_global_index`. */
  method ProcessListing(e: LegacyEnv, files: seq<string>) returns (r: Result<(seq<string>, seq<Vector>)>)
    ensures r == Accumulated(e, files)
  {
    var allChunks: seq<string> := [];
    var allEmbeddings: seq<Vector> := [];
    for i := 0 to |files|
      invariant Accumulated(e, files[..i]) == Ok((allChunks, allEmbeddings))
    {
      AccumulatedSnoc(e, files[..i], files[i]);
      TakeSnoc(files, i);
      var step := FileStep(e, files[i]);
      if step.Err? {
        AccumulatedAppend(e, files[..i + 1], files[i + 1..]);
        return Err(step.error);
      }
      var (chunks, embeddings) := step.value;
      allChunks := allChunks + chunks;
      allEmbeddings := allEmbeddings + embeddings;
    }
    PrefixOfPrefix(files, |files|, 0);
    r := Ok((allChunks, allEmbeddings));
  }

  /** `build_global_index(force)`: a saved index is loaded, unless forced, before anything
      is listed; otherwise every listed file is processed in order and a new index is built
      from what they yield and saved. */
  method BuildGlobalIndex(disk: Disk, e: LegacyEnv, force: bool) returns (r: Result<Option<FaissIndexer.FaissStore>>)
    modifies disk
    ensures disk.Exists(FaissIndexPath) && !force ==> (
      var (ip, mp) := FaissIndexer.IndexFilePaths(FaissIndexPath);
      (r.Ok? <==> ip in disk.indexFiles && mp in disk.npyFiles) &&
      (r.Err? ==> r.error.FileNotFound?) &&
      (r.Ok? ==> (r.value.Some? && r.value.value.index == disk.indexFiles[ip] &&
        r.value.value.metadata == disk.npyFiles[mp])))
    ensures !(old(disk.Exists(FaissIndexPath)) && !force) && PdfListing(e.base) == [] ==> r == Ok(None)
    ensures !(old(disk.Exists(FaissIndexPath)) && !force) && PdfListing(e.base) != [] ==>
      match Accumulated(e, PdfListing(e.base))
      case Err(err) => r == Err(err)
      case Ok(acc) =>
        (r.Ok? <==> acc.0 == [] || acc.1 == [] || Rectangular(acc.1)) &&
        (r.Ok? ==> (r.value.Some? <==> acc.0 != [] && acc.1 != [])) &&
        (r.Ok? && r.value.Some? ==> (r.value.value.metadata == acc.0 && r.value.value.index.rows == acc.1 &&
          disk.indexFiles == old(disk.indexFiles)[FaissIndexer.IndexFilePaths(FaissIndexPath).0 := r.value.value.index] &&
          disk.npyFiles == old(disk.npyFiles)[FaissIndexer.IndexFilePaths(FaissIndexPath).1 := acc.0]))
    ensures !(r.Ok? && r.value.Some? && !(old(disk.Exists(FaissIndexPath)) && !force)) ==>
      disk.indexFiles == old(disk.indexFiles) && disk.npyFiles == old(disk.npyFiles)
    ensures disk.files == old(disk.files)
  {
    if disk.Exists(FaissIndexPath) && !force {
      var loaded := FaissIndexer.LoadFaissIndex(disk, FaissIndexPath);
      if loaded.Err? {
        return Err(loaded.error);
      }
      return Ok(Some(loaded.value));
    }
    var pdfFiles := ListPdfFiles(e.base);
    if pdfFiles == [] {
      return Ok(None);
    }
    var gathered := ProcessListing(e, pdfFiles);
    if gathered.Err? {
      return Err(gathered.error);
    }
    var (allChunks, allEmbeddings) := gathered.value;
    r := FinalizeIndex(disk, allChunks, allEmbeddings, FaissIndexPath);
  }

  // ---------------------------------------------------------------------------------
  // retrieve_relevant_docs

  const LegacyTopK := 10
  const LegacyTopN := 4

  /** What the reranker answers for the candidate texts of `topChunks`. */
  function Reranked(topChunks: seq<(string, real)>, query: string, rerank: Reranker, topN: int): seq<(string, real)> {
    rerank(query, CandidateDocs(topChunks), topN)
  }

  /** `retrieve_relevant_docs` once the store has answered with `topChunks`: the non-empty
      reranked texts with a reranker, otherwise the candidate texts when some hit scores at
      least the threshold. */
  function LegacyRetrieve(topChunks: seq<(string, real)>, query: string, reranker: Option<Reranker>, topN: int,
                          threshold: real): (r: seq<string>)
    ensures topChunks == [] ==> r == []
    ensures "" !in r
    ensures reranker.None? && (exists i :: 0 <= i < |topChunks| && topChunks[i].1 >= threshold) ==>
      r == CandidateDocs(topChunks)
    ensures reranker.None? && (forall i :: 0 <= i < |topChunks| ==> topChunks[i].1 < threshold) ==> r == []
    ensures reranker.None? ==> forall t :: t in r ==> exists i :: 0 <= i < |topChunks| && topChunks[i].0 == t
    ensures reranker.Some? && topChunks != [] ==> forall t :: t in r ==>
      exists i :: 0 <= i < |Reranked(topChunks, query, reranker.value, topN)| &&
        Reranked(topChunks, query, reranker.value, topN)[i].0 == t
  {
    if topChunks == [] then []
    else
      var docs := CandidateDocs(topChunks);
      if reranker.Some? then
        var reranked := Reranked(topChunks, query, reranker.value, topN);
        var out := CandidateDocs(reranked);
        CandidateDocsMembership(reranked);
        assert forall t :: t in out ==> exists i :: 0 <= i < |reranked| && reranked[i].0 == t;
        out
      else
        CandidateDocsMembership(topChunks);
        if MaxScore(topChunks) >= threshold then docs else []
  }

  /** `retrieve_relevant_docs`: the store's answer to the query (`hit` is what faiss
      returns for it), then the reranker or the gate. */
  method RetrieveRelevantDocs(store: FaissIndexer.FaissStore, query: string, hit: seq<(real, int)>,
                              reranker: Option<Reranker>, topK: nat, topN: int, threshold: real)
      returns (r: Result<seq<string>>)
    requires FaissIndexer.ValidHits([hit], topK, store.NTotal())
    ensures r.Ok? <==> FaissIndexer.Collect(hit, store.metadata).Ok?
    ensures r.Ok? ==> r.value == LegacyRetrieve(FaissIndexer.Collect(hit, store.metadata).value, query, reranker, topN, threshold)
    ensures r.Ok? && reranker.None? ==> forall t :: t in r.value ==> t in store.metadata
  {
    var topChunks := FaissIndexer.QueryFaissIndex(store, topK, hit);
    if topChunks.Err? {
      return Err(topChunks.error);
    }
    r := Ok(LegacyRetrieve(topChunks.value, query, reranker, topN, threshold));
    if reranker.None? {
      forall t | t in r.value ensures t in store.metadata {
        var i :| 0 <= i < |topChunks.value| && topChunks.value[i].0 == t;
        assert topChunks.value[i] in topChunks.value;
      }
    }
  }
}
