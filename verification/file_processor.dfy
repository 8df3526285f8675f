/** Per-file processing (backend/main/pipeline/file_processor.py): extract the text of one
    PDF, clean it, split it into chunks and embed the chunks. Every failure, whether a
    stage raises or produces nothing, collapses to the pair of empty lists. */
module FileProcessor {
  import opened Wrappers
  import opened PyStr
  import opened FileSystem

  /** What `process_file` is handed: a local path, or the raw bytes of a streamed object. */
  datatype Source = Path(path: string) | Bytes(data: seq<byte>)

  /** The collaborators `process_file` calls, in order; each may raise. `extract` is the
      extractor's `extract_text`, `preprocess` is `preprocess_text`, `chunk` is
      `chunk_text` and `embed` is `embed_text_chunks`. */
  datatype Stages = Stages(
    extract: Source -> Result<string>,
    preprocess: string -> Result<string>,
    chunk: string -> Result<seq<string>>,
    embed: seq<string> -> Result<seq<Vector>>)

  /** What a successful run of every stage on `file` produces, as chunks and embeddings. */
  ghost predicate RunsTo(file: Source, st: Stages, chunks: seq<string>, embeddings: seq<Vector>) {
    st.extract(file).Ok? && !IsBlank(st.extract(file).value) &&
    st.preprocess(st.extract(file).value).Ok? &&
    st.chunk(st.preprocess(st.extract(file).value).value) == Ok(chunks) &&
    st.embed(chunks) == Ok(embeddings)
  }

  /** `process_file(file, extractor)`: the chunks and embeddings of `file`, or `([], [])`. */
  function ProcessFile(file: Source, st: Stages): (r: (seq<string>, seq<Vector>))
    ensures r.0 == [] <==> r.1 == []
    ensures r.0 != [] ==> RunsTo(file, st, r.0, r.1)
  {
    match st.extract(file)
    case Err(_) => ([], [])
    case Ok(text) =>
      if IsBlank(text) then ([], [])
      else match st.preprocess(text)
        case Err(_) => ([], [])
        case Ok(cleaned) =>
          match st.chunk(cleaned)
          case Err(_) => ([], [])
          case Ok(chunks) =>
            if chunks == [] then ([], [])
            else match st.embed(chunks)
              case Err(_) => ([], [])
              case Ok(embeddings) => if embeddings == [] then ([], []) else (chunks, embeddings)
  }

  /** An exception in any stage is caught and yields `([], [])`. */
  lemma StageFailureGivesNothing(file: Source, st: Stages)
    requires st.extract(file).Err?
      || (st.extract(file).Ok? && st.preprocess(st.extract(file).value).Err?)
      || (st.extract(file).Ok? && st.preprocess(st.extract(file).value).Ok?
          && st.chunk(st.preprocess(st.extract(file).value).value).Err?)
      || (st.extract(file).Ok? && st.preprocess(st.extract(file).value).Ok?
          && st.chunk(st.preprocess(st.extract(file).value).value).Ok?
          && st.embed(st.chunk(st.preprocess(st.extract(file).value).value).value).Err?)
    ensures ProcessFile(file, st) == ([], [])
  {
  }

  /** Whitespace-only text yields `([], [])`, and no later stage is consulted: replacing
      them changes nothing. */
  lemma BlankTextSkipsLaterStages(file: Source, st: Stages, other: Stages)
    requires st.extract(file).Ok? && IsBlank(st.extract(file).value)
    requires other.extract == st.extract
    ensures ProcessFile(file, st) == ([], []) == ProcessFile(file, other)
  {
  }

  /** No chunks yields `([], [])` without the embedder being consulted. */
  lemma NoChunksSkipsEmbedding(file: Source, st: Stages, embed': seq<string> -> Result<seq<Vector>>)
    requires st.extract(file).Ok? && !IsBlank(st.extract(file).value)
    requires st.preprocess(st.extract(file).value).Ok?
    requires st.chunk(st.preprocess(st.extract(file).value).value) == Ok([])
    ensures ProcessFile(file, st) == ([], []) == ProcessFile(file, st.(embed := embed'))
  {
  }

  /** The stages run in order, each consuming the previous stage's output: a successful
      result is exactly the chunks of the cleaned text of the extracted text, with their
      embeddings, and both lists are non-empty. */
  lemma SuccessIsTheStageChain(file: Source, st: Stages, text: string, cleaned: string,
                               chunks: seq<string>, embeddings: seq<Vector>)
    requires st.extract(file) == Ok(text) && !IsBlank(text)
    requires st.preprocess(text) == Ok(cleaned)
    requires st.chunk(cleaned) == Ok(chunks) && chunks != []
    requires st.embed(chunks) == Ok(embeddings) && embeddings != []
    ensures ProcessFile(file, st) == (chunks, embeddings)
  {
  }

  /** With an embedder that returns one vector per chunk, the two lists have equal length. */
  lemma EqualLengthsWithFaithfulEmbedder(file: Source, st: Stages)
    requires forall cs :: st.embed(cs).Ok? ==> |st.embed(cs).value| == |cs|
    ensures |ProcessFile(file, st).0| == |ProcessFile(file, st).1|
  {
  }
}
