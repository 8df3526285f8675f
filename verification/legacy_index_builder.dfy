/** The earlier index builder (main/retrieval/vector_store/index_builder.py): the manifest
    is a set of file names. A normal build indexes the listed files the set does not hold
    and adds them to it; a forced build indexes every listed file and leaves the set alone;
    a rebuild indexes the listing minus the exclusions and replaces the set with exactly
    those files. Every build makes the index from the files it processed in this run only.

    main/utils/manifest_helper.py, which reads and writes the set, is not part of this
    model: the set is the field of a class, and writing it then reading it gives back what
    was written. The executor is an in-order loop, as in the incremental builder.

    main/pipeline/file_processor.py, whose `process_file` this builder calls, is not part of
    this model either: each file goes through the backend `FileProcessor.ProcessFile`
    instead (extract, preprocess, chunk, embed, every failure giving `([], [])`). */
module LegacyIndexBuilder {
  import opened Wrappers
  import opened FileSystem
  import opened FileProcessor
  import opened IndexBuilder
  import FaissIndexer

  /** The manifest file: the set of file names already indexed. */
  class IndexedSet {
    var indexed: set<string>

    constructor(indexed: set<string>)
      ensures this.indexed == indexed
    {
      this.indexed := indexed;
    }
  }

  /** `set(files)` */
  function SetOf(files: seq<string>): (s: set<string>)
    ensures forall f :: f in s <==> f in files
  {
    set f | f in files
  }

  /** The files a build processes: all listed files when forced, otherwise those the set
      does not hold, in listing order. */
  function FilesToIndex(listing: seq<string>, indexed: set<string>, force: bool): (r: seq<string>)
    ensures force ==> r == listing
    ensures forall f :: f in r <==> f in listing && (force || f !in indexed)
  {
    if force then listing else Unexcluded(listing, indexed)
  }

  /** What `process_file(file, extractor)` yields for each file, concatenated in file order. */
  function Processed(env: Env, files: seq<string>): (r: (seq<string>, seq<Vector>))
    ensures files == [] ==> r == ([], [])
  {
    if files == [] then ([], [])
    else
      var prev := Processed(env, files[..|files| - 1]);
      var out := ProcessFile(Path(files[|files| - 1]), env.stages);
      (prev.0 + out.0, prev.1 + out.1)
  }

  lemma ProcessedSnoc(env: Env, files: seq<string>, f: string)
    ensures Processed(env, files + [f]).0 == Processed(env, files).0 + ProcessFile(Path(f), env.stages).0
    ensures Processed(env, files + [f]).1 == Processed(env, files).1 + ProcessFile(Path(f), env.stages).1
  {
    assert (files + [f])[..|files|] == files;
  }

  /** The processed output of two runs of files is the output of the first followed by
      that of the second: nothing is reordered or shared across files. */
  lemma {:induction false} ProcessedAppend(env: Env, a: seq<string>, b: seq<string>)
    ensures Processed(env, a + b).0 == Processed(env, a).0 + Processed(env, b).0
    ensures Processed(env, a + b).1 == Processed(env, a).1 + Processed(env, b).1
    decreases |b|
  {
    if b == [] {
      assert a + b == a;
    } else {
      var init, last := b[..|b| - 1], b[|b| - 1];
      assert b == init + [last];
      assert a + b == (a + init) + [last];
      ProcessedAppend(env, a, init);
      ProcessedSnoc(env, a + init, last);
      ProcessedSnoc(env, init, last);
      var pa, pi, pai := Processed(env, a), Processed(env, init), Processed(env, a + init);
      var out := ProcessFile(Path(last), env.stages);
      ConcatSnoc(pa.0, pi.0, out.0);
      ConcatSnoc(pa.1, pi.1, out.1);
    }
  }

  /** With an embedder that returns one vector per chunk, the index gets as many rows as
      texts. */
  lemma {:induction false} ProcessedAligned(env: Env, files: seq<string>)
    requires forall cs :: env.stages.embed(cs).Ok? ==> |env.stages.embed(cs).value| == |cs|
    ensures |Processed(env, files).0| == |Processed(env, files).1|
  {
    if files != [] {
      ProcessedAligned(env, files[..|files| - 1]);
      EqualLengthsWithFaithfulEmbedder(Path(files[|files| - 1]), env.stages);
    }
  }

  /** The executor loop: each file's chunks and embeddings, extended in submission order. */
  method ProcessFiles(env: Env, files: seq<string>) returns (chunks: seq<string>, embeddings: seq<Vector>)
    ensures (chunks, embeddings) == Processed(env, files)
  {
    chunks, embeddings := [], [];
    for i := 0 to |files|
      invariant (chunks, embeddings) == Processed(env, files[..i])
    {
      assert files[..i + 1][..i] == files[..i];
      var (c, e) := ProcessFile(Path(files[i]), env.stages);
      chunks := chunks + c;
      embeddings := embeddings + e;
    }
    assert files[..|files|] == files;
  }

  /** `build_global_index(force, index_path)` */
  method BuildGlobalIndex(disk: Disk, mf: IndexedSet, env: Env, force: bool, indexPath: string)
      returns (r: Result<Option<FaissIndexer.FaissStore>>)
    modifies disk, mf
    ensures PdfListing(env) == [] ==> (r == Ok(None) && mf.indexed == old(mf.indexed) &&
      disk.indexFiles == old(disk.indexFiles) && disk.npyFiles == old(disk.npyFiles))
    ensures var files := FilesToIndex(PdfListing(env), old(mf.indexed), force);
      PdfListing(env) != [] && files == [] ==> (
        disk.indexFiles == old(disk.indexFiles) && disk.npyFiles == old(disk.npyFiles) &&
        (r.Ok? ==> (r.value.None? <==> !disk.Exists(indexPath))) &&
        (r.Err? ==> r.error.FileNotFound?) &&
        (r.Ok? && r.value.Some? ==> (FaissIndexer.IndexFilePaths(indexPath).0 in disk.indexFiles &&
          FaissIndexer.IndexFilePaths(indexPath).1 in disk.npyFiles &&
          r.value.value.index == disk.indexFiles[FaissIndexer.IndexFilePaths(indexPath).0] &&
          r.value.value.metadata == disk.npyFiles[FaissIndexer.IndexFilePaths(indexPath).1])))
    ensures var files := FilesToIndex(PdfListing(env), old(mf.indexed), force);
      var (chunks, embeddings) := Processed(env, files);
      files != [] ==> (
        (r.Ok? <==> chunks == [] || embeddings == [] || Rectangular(embeddings)) &&
        (r.Ok? ==> (r.value.Some? <==> chunks != [] && embeddings != [])) &&
        (r.Ok? && r.value.Some? ==> (r.value.value.metadata == chunks && r.value.value.index.rows == embeddings &&
          disk.indexFiles == old(disk.indexFiles)[FaissIndexer.IndexFilePaths(indexPath).0 := r.value.value.index] &&
          disk.npyFiles == old(disk.npyFiles)[FaissIndexer.IndexFilePaths(indexPath).1 := chunks])))
    ensures mf.indexed == if !force && r.Ok? && r.value.Some?
      then old(mf.indexed) + SetOf(FilesToIndex(PdfListing(env), old(mf.indexed), force))
      else old(mf.indexed)
    ensures disk.files == old(disk.files)
  {
    var allFiles := ListPdfFiles(env);
    if allFiles == [] {
      return Ok(None);
    }
    var filesToIndex: seq<string>;
    if force {
      filesToIndex := allFiles;
    } else {
      var alreadyIndexed := mf.indexed;
      filesToIndex := Unexcluded(allFiles, alreadyIndexed);
      if filesToIndex == [] {
        r := ReuseSavedIndex(disk, indexPath);
        return;
      }
    }
    var chunks, embeddings := ProcessFiles(env, filesToIndex);
    r := FinalizeIndex(disk, chunks, embeddings, indexPath);
    if r.Ok? && r.value.Some? && !force {
      mf.indexed := mf.indexed + SetOf(filesToIndex);
    }
  }

  /** `rebuild_index(exclude_files, index_path)` */
  method RebuildIndex(disk: Disk, mf: IndexedSet, env: Env, excludeFiles: Option<seq<string>>, indexPath: string)
      returns (r: Result<Option<FaissIndexer.FaissStore>>)
    modifies disk, mf
    ensures var files := Unexcluded(PdfListing(env), Excluded(excludeFiles));
      files == [] ==> (r == Ok(None) && mf.indexed == old(mf.indexed) &&
        disk.indexFiles == old(disk.indexFiles) && disk.npyFiles == old(disk.npyFiles))
    ensures var files := Unexcluded(PdfListing(env), Excluded(excludeFiles));
      var (chunks, embeddings) := Processed(env, files);
      files != [] ==> (
        (r.Ok? <==> chunks == [] || embeddings == [] || Rectangular(embeddings)) &&
        (r.Ok? ==> (r.value.Some? <==> chunks != [] && embeddings != [])) &&
        (r.Ok? && r.value.Some? ==> (r.value.value.metadata == chunks && r.value.value.index.rows == embeddings &&
          disk.indexFiles == old(disk.indexFiles)[FaissIndexer.IndexFilePaths(indexPath).0 := r.value.value.index] &&
          disk.npyFiles == old(disk.npyFiles)[FaissIndexer.IndexFilePaths(indexPath).1 := chunks])))
    ensures mf.indexed == if r.Ok? && r.value.Some?
      then SetOf(Unexcluded(PdfListing(env), Excluded(excludeFiles)))
      else old(mf.indexed)
    ensures disk.files == old(disk.files)
  {
    var excluded := Excluded(excludeFiles);
    var allFiles := ListPdfFiles(env);
    var filesToIndex := Unexcluded(allFiles, excluded);
    if filesToIndex == [] {
      return Ok(None);
    }
    var chunks, embeddings := ProcessFiles(env, filesToIndex);
    r := FinalizeIndex(disk, chunks, embeddings, indexPath);
    if r.Ok? && r.value.Some? {
      mf.indexed := SetOf(filesToIndex);
    }
  }
}
