/** The local file system as the core sees it. Ordinary files (PDFs, the manifest) are byte
    strings; a FAISS index written by `faiss.write_index` and a metadata list written by
    `np.save` are kept as the values they serialise, in namespaces of their own. */
module FileSystem {
  import opened Wrappers

  type Vector = seq<real>

  /** What `faiss.write_index` stores for an inner-product flat index: its dimension and
      its rows. */
  datatype IndexBlob = IndexBlob(dim: nat, rows: seq<Vector>)

  class Disk {
    var files: map<string, seq<byte>>
    var indexFiles: map<string, IndexBlob>
    var npyFiles: map<string, seq<string>>

    constructor(files: map<string, seq<byte>>)
      ensures this.files == files && indexFiles == map[] && npyFiles == map[]
    {
      this.files := files;
      indexFiles := map[];
      npyFiles := map[];
    }

    /** `os.path.exists(path)` */
    predicate Exists(path: string)
      reads this
    {
      path in files || path in indexFiles || path in npyFiles
    }

    /** `os.remove(path)`: deletes the file; a missing file raises FileNotFoundError. */
    method Remove(path: string) returns (r: Result<()>)
      modifies this
      ensures path in old(files) ==> r == Ok(())
      ensures path !in old(files) ==> r == Err(FileNotFound(path))
      ensures files == old(files) - {path}
      ensures indexFiles == old(indexFiles) && npyFiles == old(npyFiles)
    {
      if path in files {
        files := files - {path};
        r := Ok(());
      } else {
        r := Err(FileNotFound(path));
      }
    }
  }
}
