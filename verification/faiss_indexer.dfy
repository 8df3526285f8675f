/** The FAISS vector store (main/retrieval/vector_store/faiss_indexer.py): an inner-product
    flat index paired with a list of chunk texts, one text per stored row.

    The similarity ranking is not modelled: what `index.search` returns for each query row
    (its k (score, id) pairs, padded with id -1) is the parameter `hits`. The L2
    normalisation applied to rows and queries is left out, so the index holds the rows as
    given. */
module FaissIndexer {
  import opened Wrappers
  import opened Seqs
  import opened PyStr
  import opened PyPath
  import opened FileSystem

  /** A two-dimensional numpy array: every row has the same width. */
  datatype Matrix = Matrix(width: nat, rows: seq<Vector>)

  predicate WellShaped(m: Matrix) {
    forall i :: 0 <= i < |m.rows| ==> |m.rows[i]| == m.width
  }

  /** What faiss may answer: for each query row exactly k pairs, each id either -1 or the
      position of a stored row. */
  predicate ValidHits(hits: seq<seq<(real, int)>>, k: nat, ntotal: nat) {
    forall q :: 0 <= q < |hits| ==>
      |hits[q]| == k && forall j :: 0 <= j < k ==> -1 <= hits[q][j].1 < ntotal
  }

  /** All query rows' pairs, row after row. */
  function Flatten(hits: seq<seq<(real, int)>>): seq<(real, int)> {
    if hits == [] then [] else Flatten(hits[..|hits| - 1]) + hits[|hits| - 1]
  }

  /** The results the search loop collects from `pairs`: a -1 id is skipped and any other
      id yields its text and score. `metadata[idx]` follows Python indexing, so an id past
      either end of the texts raises IndexError. */
  function Collect(pairs: seq<(real, int)>, metadata: seq<string>): Result<seq<(string, real)>> {
    if pairs == [] then Ok([])
    else
      var (dist, idx) := pairs[|pairs| - 1];
      match Collect(pairs[..|pairs| - 1], metadata)
      case Err(e) => Err(e)
      case Ok(rs) =>
        if idx == -1 then Ok(rs)
        else if idx >= |metadata| || idx < -|metadata| then Err(IndexError)
        else Ok(rs + [(metadata[if idx < 0 then |metadata| + idx else idx], dist)])
  }

  lemma {:induction false} FlattenBounds(hits: seq<seq<(real, int)>>, k: nat, ntotal: nat)
    requires ValidHits(hits, k, ntotal)
    ensures |Flatten(hits)| == k * |hits|
    ensures forall j :: 0 <= j < |Flatten(hits)| ==> -1 <= Flatten(hits)[j].1 < ntotal
  {
    if hits != [] {
      var init := hits[..|hits| - 1];
      assert ValidHits(init, k, ntotal) by {
        forall q | 0 <= q < |init| ensures |init[q]| == k {
          assert init[q] == hits[q];
        }
      }
      FlattenBounds(init, k, ntotal);
      var last := hits[|hits| - 1];
      forall j | 0 <= j < |Flatten(hits)| ensures -1 <= Flatten(hits)[j].1 < ntotal {
        if j >= |Flatten(init)| {
          assert Flatten(hits)[j] == last[j - |Flatten(init)|];
        } else {
          assert Flatten(hits)[j] == Flatten(init)[j];
        }
      }
    }
  }

  /** Every result is the text stored for some returned id together with that id's score,
      and there are never more results than pairs. */
  lemma {:induction false} CollectSpec(pairs: seq<(real, int)>, metadata: seq<string>)
    requires forall j :: 0 <= j < |pairs| ==> pairs[j].1 >= -1
    ensures Collect(pairs, metadata).Ok? ==> |Collect(pairs, metadata).value| <= |pairs|
    ensures Collect(pairs, metadata).Ok? ==> forall r :: r in Collect(pairs, metadata).value ==>
      exists j :: 0 <= j < |pairs| && 0 <= pairs[j].1 < |metadata| && r == (metadata[pairs[j].1], pairs[j].0)
    ensures (forall j :: 0 <= j < |pairs| ==> pairs[j].1 < |metadata|) ==> Collect(pairs, metadata).Ok?
  {
    if pairs != [] {
      var init := pairs[..|pairs| - 1];
      CollectSpec(init, metadata);
      if Collect(pairs, metadata).Ok? {
        var rs := Collect(init, metadata).value;
        forall r | r in Collect(pairs, metadata).value
          ensures exists j :: 0 <= j < |pairs| && 0 <= pairs[j].1 < |metadata| && r == (metadata[pairs[j].1], pairs[j].0)
        {
          if r in rs {
            var j :| 0 <= j < |init| && 0 <= init[j].1 < |metadata| && r == (metadata[init[j].1], init[j].0);
            assert pairs[j] == init[j];
          } else {
            assert 0 <= pairs[|pairs| - 1].1 < |metadata|;
          }
        }
      }
    }
  }

  /** Pairs whose ids are all -1 give no results. */
  lemma {:induction false} CollectAllPadding(pairs: seq<(real, int)>, metadata: seq<string>)
    requires forall j :: 0 <= j < |pairs| ==> pairs[j].1 == -1
    ensures Collect(pairs, metadata) == Ok([])
  {
    if pairs != [] {
      CollectAllPadding(pairs[..|pairs| - 1], metadata);
    }
  }

  lemma {:induction false} FlattenAppend(a: seq<seq<(real, int)>>, b: seq<seq<(real, int)>>)
    ensures Flatten(a + b) == Flatten(a) + Flatten(b)
    decreases |b|
  {
    if b != [] {
      assert (a + b)[..|a + b| - 1] == a + b[..|b| - 1];
      FlattenAppend(a, b[..|b| - 1]);
    } else {
      assert a + b == a;
    }
  }

  /** Once an IndexError is raised, later pairs are never looked at. */
  lemma {:induction false} CollectErrorSticks(p: seq<(real, int)>, q: seq<(real, int)>, metadata: seq<string>)
    requires Collect(p, metadata).Err?
    ensures Collect(p + q, metadata) == Collect(p, metadata)
    decreases |q|
  {
    if q != [] {
      assert (p + q)[..|p + q| - 1] == p + q[..|q| - 1];
      CollectErrorSticks(p, q[..|q| - 1], metadata);
    } else {
      assert p + q == p;
    }
  }

  lemma FlattenSplit(hits: seq<seq<(real, int)>>, q: nat)
    requires q < |hits|
    ensures Flatten(hits) == Flatten(hits[..q]) + hits[q] + Flatten(hits[q + 1..])
  {
    var front := hits[..q + 1];
    var rest := hits[q + 1..];
    assert hits == front + rest;
    FlattenAppend(front, rest);
    assert front[..|front| - 1] == hits[..q];
    assert Flatten(front) == Flatten(hits[..q]) + hits[q];
  }

  /** An IndexError raised at pair `j` of query row `q` is the outcome of the whole search. */
  lemma SearchStopsAtError(hits: seq<seq<(real, int)>>, q: nat, j: nat, metadata: seq<string>)
    requires q < |hits| && j < |hits[q]|
    requires Collect(Flatten(hits[..q]) + hits[q][..j + 1], metadata).Err?
    ensures Collect(Flatten(hits), metadata) == Collect(Flatten(hits[..q]) + hits[q][..j + 1], metadata)
  {
    var row := hits[q];
    var before := Flatten(hits[..q]);
    var after := Flatten(hits[q + 1..]);
    FlattenSplit(hits, q);
    assert row == row[..j + 1] + row[j + 1..];
    assert before + row + after == (before + row[..j + 1]) + (row[j + 1..] + after);
    CollectErrorSticks(before + row[..j + 1], row[j + 1..] + after, metadata);
  }

  /** With ids as faiss answers them: at most k results per query row, each text is one
      of the stored texts, and a store with one text per row never raises. */
  lemma SearchResultFacts(hits: seq<seq<(real, int)>>, k: nat, ntotal: nat, metadata: seq<string>)
    requires ValidHits(hits, k, ntotal)
    ensures ntotal == |metadata| ==> Collect(Flatten(hits), metadata).Ok?
    ensures Collect(Flatten(hits), metadata).Ok? ==> |Collect(Flatten(hits), metadata).value| <= k * |hits|
    ensures Collect(Flatten(hits), metadata).Ok? ==>
      forall res :: res in Collect(Flatten(hits), metadata).value ==> res.0 in metadata
  {
    FlattenBounds(hits, k, ntotal);
    CollectSpec(Flatten(hits), metadata);
  }

  lemma CollectSnoc(p: seq<(real, int)>, x: (real, int), metadata: seq<string>)
    ensures Collect(p + [x], metadata) ==
      match Collect(p, metadata)
      case Err(e) => Err(e)
      case Ok(rs) =>
        if x.1 == -1 then Ok(rs)
        else if x.1 >= |metadata| || x.1 < -|metadata| then Err(IndexError)
        else Ok(rs + [(metadata[if x.1 < 0 then |metadata| + x.1 else x.1], x.0)])
  {
    assert (p + [x])[..|p|] == p;
  }

  lemma FlattenSnoc(hits: seq<seq<(real, int)>>, q: nat)
    requires q < |hits|
    ensures Flatten(hits[..q + 1]) == Flatten(hits[..q]) + hits[q]
  {
    assert hits[..q + 1][..q] == hits[..q];
  }

  class FaissStore {
    const dim: nat
    var index: IndexBlob
    var metadata: seq<string>

    /** `index.ntotal` */
    function NTotal(): nat
      reads this
    {
      |index.rows|
    }

    /** One text per stored row. */
    predicate Aligned()
      reads this
    {
      NTotal() == |metadata|
    }

    /** `FaissStore(dim)`: an empty index of that dimension and no texts. */
    constructor(dim: nat)
      ensures this.dim == dim && index == IndexBlob(dim, []) && metadata == []
      ensures Aligned()
    {
      this.dim := dim;
      index := IndexBlob(dim, []);
      metadata := [];
    }

    /** `add`: rows of another width than `dim` raise ValueError and change nothing;
        otherwise the rows are appended to the index and the documents to the texts, in
        order, duplicates included. An index whose own dimension is not `dim` (one loaded
        from a file) rejects the rows inside faiss. */
    method Add(embeddings: Matrix, documents: seq<string>) returns (r: Result<()>)
      requires WellShaped(embeddings)
      modifies this
      ensures embeddings.width != dim ==> r == Err(ValueError)
      ensures embeddings.width == dim && index.dim != dim ==> r == Err(CollaboratorFailure)
      ensures r.Err? ==> index == old(index) && metadata == old(metadata)
      ensures r.Ok? <==> embeddings.width == dim && old(index.dim) == dim
      ensures r.Ok? ==> index == IndexBlob(old(index.dim), old(index.rows) + embeddings.rows)
      ensures r.Ok? ==> metadata == old(metadata) + documents
      ensures r.Ok? ==> NTotal() == old(NTotal()) + |embeddings.rows|
      ensures old(Aligned()) && |documents| == |embeddings.rows| ==> Aligned()
    {
      if embeddings.width != dim {
        return Err(ValueError);
      }
      if index.dim != embeddings.width {
        return Err(CollaboratorFailure);
      }
      index := IndexBlob(index.dim, index.rows + embeddings.rows);
      metadata := metadata + documents;
      r := Ok(());
    }

    /** `search`: walks every query row's pairs in order, skips the -1 padding and pairs
        each other id's text with its score. */
    method Search(k: nat, hits: seq<seq<(real, int)>>) returns (r: Result<seq<(string, real)>>)
      requires ValidHits(hits, k, NTotal())
      ensures r == Collect(Flatten(hits), metadata)
      ensures Aligned() ==> r.Ok?
      ensures r.Ok? ==> |r.value| <= k * |hits|
      ensures r.Ok? ==> forall res :: res in r.value ==> res.0 in metadata
    {
      var results: seq<(string, real)> := [];
      for q := 0 to |hits|
        invariant Collect(Flatten(hits[..q]), metadata) == Ok(results)
      {
        var row := hits[q];
        ghost var before := Flatten(hits[..q]);
        assert before + row[..0] == before;
        for j := 0 to |row|
          invariant Collect(before + row[..j], metadata) == Ok(results)
        {
          AppendTakeSnoc(before, row, j);
          CollectSnoc(before + row[..j], row[j], metadata);
          var (dist, idx) := row[j];
          if idx == -1 {
            continue;
          }
          if idx >= |metadata| || idx < -|metadata| {
            SearchStopsAtError(hits, q, j, metadata);
            SearchResultFacts(hits, k, NTotal(), metadata);
            return Err(IndexError);
          }
          results := results + [(metadata[if idx < 0 then |metadata| + idx else idx], dist)];
        }
        PrefixOfPrefix(row, |row|, 0);
        FlattenSnoc(hits, q);
      }
      PrefixOfPrefix(hits, |hits|, 0);
      SearchResultFacts(hits, k, NTotal(), metadata);
      r := Ok(results);
    }

    /** `save`: writes the index to `indexPath` and the texts to `metadataPath`, to which
        `np.save` adds ".npy" unless it already ends so. */
    method Save(disk: Disk, indexPath: string, metadataPath: string)
      modifies disk
      ensures disk.indexFiles == old(disk.indexFiles)[indexPath := index]
      ensures disk.npyFiles == old(disk.npyFiles)[NpyPath(metadataPath) := metadata]
      ensures disk.files == old(disk.files)
    {
      disk.indexFiles := disk.indexFiles[indexPath := index];
      disk.npyFiles := disk.npyFiles[NpyPath(metadataPath) := metadata];
    }

    /** `load`: a missing index or metadata file raises FileNotFoundError and changes
        nothing; otherwise both the index and the texts are replaced by the stored ones.
        The store's own `dim` is not touched. */
    method Load(disk: Disk, indexPath: string, metadataPath: string) returns (r: Result<()>)
      modifies this
      ensures r.Ok? <==> indexPath in disk.indexFiles && metadataPath in disk.npyFiles
      ensures r.Err? ==> r.error.FileNotFound? && index == old(index) && metadata == old(metadata)
      ensures r.Ok? ==> index == disk.indexFiles[indexPath] && metadata == disk.npyFiles[metadataPath]
    {
      if indexPath !in disk.indexFiles {
        return Err(FileNotFound(indexPath));
      }
      if metadataPath !in disk.npyFiles {
        return Err(FileNotFound(metadataPath));
      }
      index := disk.indexFiles[indexPath];
      metadata := disk.npyFiles[metadataPath];
      r := Ok(());
    }
  }

  /** The file `np.save(path, …)` writes. */
  function NpyPath(path: string): (p: string)
    ensures EndsWith(p, ".npy")
    ensures EndsWith(path, ".npy") ==> p == path
  {
    if EndsWith(path, ".npy") then path else path + ".npy"
  }

  /** Saving a store and loading both files into a fresh store restores its rows and its
      texts, when the metadata path already carries the ".npy" extension. */
  method SaveThenLoad(disk: Disk, store: FaissStore, indexPath: string, metadataPath: string)
      returns (loaded: FaissStore, r: Result<()>)
    requires EndsWith(metadataPath, ".npy")
    modifies disk
    ensures fresh(loaded) && loaded.dim == store.dim
    ensures r.Ok? && loaded.index == store.index && loaded.metadata == store.metadata
    ensures loaded.NTotal() == store.NTotal()
  {
    store.Save(disk, indexPath, metadataPath);
    loaded := new FaissStore(store.dim);
    r := loaded.Load(disk, indexPath, metadataPath);
  }

  /** The two files a store saved under `indexPath` occupies: the extension of `indexPath`
      is replaced by ".index" and by ".metadata.npy". */
  function IndexFilePaths(indexPath: string): (paths: (string, string))
    ensures paths.0 == SplitExtRoot(indexPath) + ".index"
    ensures paths.1 == SplitExtRoot(indexPath) + ".metadata.npy"
  {
    var base := SplitExtRoot(indexPath);
    (base + ".index", base + ".metadata.npy")
  }

  /** An index path of the form `<stem>.index` is itself the file the index goes to. */
  lemma IndexPathIsKept(stem: string)
    requires stem != [] && stem[|stem| - 1] != '/' && stem[|stem| - 1] != '.'
    ensures IndexFilePaths(stem + ".index") == (stem + ".index", stem + ".metadata.npy")
  {
    IndexSuffixRoot(stem);
  }

  /** `build_faiss_index`: the rows become a numpy matrix, whose width becomes the store's
      dimension. No rows at all has no second axis (IndexError); rows of unequal width do
      not form a matrix (ValueError). */
  method BuildFaissIndex(embeddings: seq<Vector>, documents: seq<string>) returns (r: Result<FaissStore>)
    ensures embeddings == [] ==> r == Err(IndexError)
    ensures embeddings != [] && (exists i :: 0 <= i < |embeddings| && |embeddings[i]| != |embeddings[0]|) ==>
      r == Err(ValueError)
    ensures embeddings != [] && (forall i :: 0 <= i < |embeddings| ==> |embeddings[i]| == |embeddings[0]|) ==>
      r.Ok?
    ensures r.Ok? ==> (fresh(r.value) && r.value.dim == |embeddings[0]|
      && r.value.index == IndexBlob(|embeddings[0]|, embeddings) && r.value.metadata == documents)
    ensures r.Ok? && |documents| == |embeddings| ==> r.value.Aligned()
  {
    if embeddings == [] {
      return Err(IndexError);
    }
    var width := |embeddings[0]|;
    var matrix := Matrix(width, embeddings);
    if !WellShaped(matrix) {
      return Err(ValueError);
    }
    var store := new FaissStore(width);
    var added := store.Add(matrix, documents);
    assert added.Ok?;
    return Ok(store);
  }

  /** `save_faiss_index` */
  method SaveFaissIndex(disk: Disk, store: FaissStore, indexPath: string)
    modifies disk
    ensures disk.indexFiles == old(disk.indexFiles)[IndexFilePaths(indexPath).0 := store.index]
    ensures disk.npyFiles == old(disk.npyFiles)[IndexFilePaths(indexPath).1 := store.metadata]
    ensures disk.files == old(disk.files)
  {
    var base := SplitExtRoot(indexPath);
    store.Save(disk, base + ".index", base + ".metadata.npy");
  }

  /** The dimension `load_faiss_index` gives every store it loads. */
  const LoadedDim := 384

  /** `load_faiss_index`: a store of dimension 384 filled from the two files, whatever the
      dimension of the stored index. */
  method LoadFaissIndex(disk: Disk, indexPath: string) returns (r: Result<FaissStore>)
    ensures var (ip, mp) := IndexFilePaths(indexPath);
      r.Ok? <==> ip in disk.indexFiles && mp in disk.npyFiles
    ensures r.Err? ==> r.error.FileNotFound?
    ensures r.Ok? ==> (fresh(r.value) && r.value.dim == LoadedDim
      && r.value.index == disk.indexFiles[IndexFilePaths(indexPath).0]
      && r.value.metadata == disk.npyFiles[IndexFilePaths(indexPath).1])
  {
    var base := SplitExtRoot(indexPath);
    var store := new FaissStore(LoadedDim);
    var loaded := store.Load(disk, base + ".index", base + ".metadata.npy");
    if loaded.Err? {
      return Err(loaded.error);
    }
    return Ok(store);
  }

  /** What `save_faiss_index` writes, `load_faiss_index` reads back from the same path:
      the rows and the texts survive, while the dimension becomes 384. */
  method SaveThenLoadFaissIndex(disk: Disk, store: FaissStore, indexPath: string) returns (r: Result<FaissStore>)
    modifies disk
    ensures r.Ok? && r.value.index == store.index && r.value.metadata == store.metadata
    ensures r.value.dim == LoadedDim
  {
    SaveFaissIndex(disk, store, indexPath);
    r := LoadFaissIndex(disk, indexPath);
  }

  /** `query_faiss_index`: one query row searched for its `k` nearest rows. The encoding of
      the query text is not modelled; `hit` is what faiss answers for it. */
  method QueryFaissIndex(store: FaissStore, k: nat, hit: seq<(real, int)>) returns (r: Result<seq<(string, real)>>)
    requires ValidHits([hit], k, store.NTotal())
    ensures r == Collect(hit, store.metadata)
    ensures store.Aligned() ==> r.Ok?
    ensures r.Ok? ==> |r.value| <= k && forall res :: res in r.value ==> res.0 in store.metadata
  {
    assert [hit][..0] == [];
    assert Flatten([hit]) == hit;
    r := store.Search(k, [hit]);
  }
}
