/** The S3 helpers (backend/main/utils/s3_helper.py): listing the PDF keys of a bucket,
    resolving a key to a local file (downloading it into the cache when needed), fetching an
    object's bytes, and hashing a local file.

    The bucket is a map from key to object bytes; the paginated listing is the sequence of
    pages the paginator yields, each a sequence of keys. SHA-256 is the parameter `sha`,
    from the bytes hashed to the hex digest. */
module S3Helper {
  import opened Wrappers
  import opened PyStr
  import opened PyPath
  import opened Settings
  import opened FileSystem

  // ---------------------------------------------------------------------------------
  // list_pdfs_in_bucket

  /** `key.lower().endswith(".pdf")` */
  predicate IsPdfKey(key: string) {
    EndsWith(Lower(key), ".pdf")
  }

  /** The keys of `keys` that name PDFs, in listing order. */
  function PdfKeys(keys: seq<string>): (r: seq<string>)
    ensures |r| <= |keys|
  {
    if keys == [] then []
    else PdfKeys(keys[..|keys| - 1]) + (if IsPdfKey(keys[|keys| - 1]) then [keys[|keys| - 1]] else [])
  }

  /** All pages' keys, one page after another. */
  function Flatten(pages: seq<seq<string>>): seq<string> {
    if pages == [] then [] else Flatten(pages[..|pages| - 1]) + pages[|pages| - 1]
  }

  lemma {:induction false} PdfKeysAppend(a: seq<string>, b: seq<string>)
    ensures PdfKeys(a + b) == PdfKeys(a) + PdfKeys(b)
    decreases |b|
  {
    if b != [] {
      var init := b[..|b| - 1];
      assert (a + b)[..|a + b| - 1] == a + init;
      PdfKeysAppend(a, init);
    } else {
      assert a + b == a;
    }
  }

  /** A key is listed exactly when the bucket holds it and its name ends in ".pdf" in any
      letter case. */
  lemma {:induction false} PdfKeysMembership(keys: seq<string>)
    ensures forall k :: k in PdfKeys(keys) <==> k in keys && IsPdfKey(k)
  {
    if keys != [] {
      var init := keys[..|keys| - 1];
      PdfKeysMembership(init);
      assert keys == init + [keys[|keys| - 1]];
    }
  }

  /** The upper-case extension is accepted as well: `report.PDF` is listed. */
  lemma UpperCaseExtensionListed(stem: string)
    ensures IsPdfKey(stem + ".PDF")
  {
    var k := stem + ".PDF";
    var l := Lower(k);
    assert l[|l| - 4..] == ".pdf" by {
      assert k[|k| - 4..] == ".PDF";
      assert LowerChar('.') == '.' && LowerChar('P') == 'p' && LowerChar('D') == 'd' && LowerChar('F') == 'f';
    }
  }

  /** `list_pdfs_in_bucket`: walks every page of the listing and keeps the PDF keys. */
  method ListPdfsInBucket(pages: seq<seq<string>>) returns (files: seq<string>)
    ensures files == PdfKeys(Flatten(pages))
    ensures forall k :: k in files <==> k in Flatten(pages) && IsPdfKey(k)
  {
    files := [];
    for p := 0 to |pages|
      invariant files == PdfKeys(Flatten(pages[..p]))
    {
      var page := pages[p];
      ghost var before := Flatten(pages[..p]);
      assert before + page[..0] == before;
      for i := 0 to |page|
        invariant files == PdfKeys(before + page[..i])
      {
        var listed := before + page[..i + 1];
        assert listed[..|listed| - 1] == before + page[..i];
        if IsPdfKey(page[i]) {
          files := files + [page[i]];
        }
      }
      assert pages[..p + 1][..p] == pages[..p];
      assert page[..|page|] == page;
    }
    assert pages[..|pages|] == pages;
    PdfKeysMembership(Flatten(pages));
  }

  // ---------------------------------------------------------------------------------
  // download_pdf

  /** Where `download_pdf` stores a key when it caches it. */
  function CachePath(cfg: Config, key: string): string {
    PathJoin(cfg.cacheDir, key)
  }

  /** The path `download_pdf` returns, or the exception it raises, for the file system
      holding `files`. */
  function DownloadResult(cfg: Config, bucket: map<string, seq<byte>>, files: map<string, seq<byte>>,
                          key: string, cacheMode: Option<string>): Result<string>
  {
    var mode := EffectiveCacheMode(cfg, cacheMode);
    if !cfg.useS3 then Ok(PathJoin(cfg.sampleDir, key))
    else if mode == "none" then Err(NotImplemented)
    else if CachePath(cfg, key) !in files && key !in bucket then Err(NoSuchKey(key))
    else if mode == "ephemeral" then Ok(CachePath(cfg, key) + EphemeralSuffix)
    else Ok(CachePath(cfg, key))
  }

  /** The files after `download_pdf`: the object is copied into the cache only when it is
      not there yet. */
  function FilesAfterDownload(cfg: Config, bucket: map<string, seq<byte>>, files: map<string, seq<byte>>,
                              key: string, cacheMode: Option<string>): map<string, seq<byte>>
  {
    var mode := EffectiveCacheMode(cfg, cacheMode);
    if !cfg.useS3 || mode == "none" || CachePath(cfg, key) in files || key !in bucket then files
    else files[CachePath(cfg, key) := bucket[key]]
  }

  /** `download_pdf` */
  method DownloadPdf(disk: Disk, bucket: map<string, seq<byte>>, cfg: Config, key: string,
                     cacheMode: Option<string>) returns (r: Result<string>)
    modifies disk
    ensures r == DownloadResult(cfg, bucket, old(disk.files), key, cacheMode)
    ensures disk.files == FilesAfterDownload(cfg, bucket, old(disk.files), key, cacheMode)
    ensures disk.indexFiles == old(disk.indexFiles) && disk.npyFiles == old(disk.npyFiles)
  {
    var mode := EffectiveCacheMode(cfg, cacheMode);
    if !cfg.useS3 {
      return Ok(PathJoin(cfg.sampleDir, key));
    }
    if mode == "none" {
      return Err(NotImplemented);
    }
    var localPath := PathJoin(cfg.cacheDir, key);
    if localPath !in disk.files {
      if key !in bucket {
        return Err(NoSuchKey(key));
      }
      disk.files := disk.files[localPath := bucket[key]];
    }
    if mode == "ephemeral" {
      return Ok(localPath + EphemeralSuffix);
    }
    return Ok(localPath);
  }

  /** Without S3 the key resolves to the sample directory whatever the cache mode, and
      nothing is written. */
  lemma LocalModeUsesSampleDir(cfg: Config, bucket: map<string, seq<byte>>, files: map<string, seq<byte>>,
                               key: string, cacheMode: Option<string>)
    requires !cfg.useS3
    ensures DownloadResult(cfg, bucket, files, key, cacheMode) == Ok(PathJoin(cfg.sampleDir, key))
    ensures EndsWith(PathJoin(cfg.sampleDir, key), key) || StartsWith(key, "/")
    ensures FilesAfterDownload(cfg, bucket, files, key, cacheMode) == files
  {
  }

  /** On S3, a successful call leaves the object's bytes at the cache path, and the path
      returned is that cache path, marked with "::ephemeral" exactly in ephemeral mode. */
  lemma DownloadedFileIsCached(cfg: Config, bucket: map<string, seq<byte>>, files: map<string, seq<byte>>,
                               key: string, cacheMode: Option<string>)
    requires cfg.useS3
    requires DownloadResult(cfg, bucket, files, key, cacheMode).Ok?
    ensures EffectiveCacheMode(cfg, cacheMode) != "none"
    ensures CachePath(cfg, key) in FilesAfterDownload(cfg, bucket, files, key, cacheMode)
    ensures CachePath(cfg, key) !in files ==>
      FilesAfterDownload(cfg, bucket, files, key, cacheMode)[CachePath(cfg, key)] == bucket[key]
    ensures CachePath(cfg, key) in files ==> FilesAfterDownload(cfg, bucket, files, key, cacheMode) == files
    ensures DownloadResult(cfg, bucket, files, key, cacheMode).value ==
      if EffectiveCacheMode(cfg, cacheMode) == "ephemeral" then CachePath(cfg, key) + EphemeralSuffix
      else CachePath(cfg, key)
  {
  }

  /** A second download of the same key finds the cached copy: same answer, no new write. */
  lemma DownloadIdempotent(cfg: Config, bucket: map<string, seq<byte>>, files: map<string, seq<byte>>,
                           key: string, cacheMode: Option<string>)
    ensures var files' := FilesAfterDownload(cfg, bucket, files, key, cacheMode);
      FilesAfterDownload(cfg, bucket, files', key, cacheMode) == files' &&
      DownloadResult(cfg, bucket, files', key, cacheMode) == DownloadResult(cfg, bucket, files, key, cacheMode)
  {
  }

  /** "::ephemeral" cannot overlap itself. */
  lemma EphemeralSuffixBorderFree()
    ensures BorderFree(EphemeralSuffix)
  {
    var e := EphemeralSuffix;
    forall l | 0 < l < |e| ensures e[..l] != e[|e| - l..] {
      if l == 1 {
        assert e[|e| - 1] == 'l';
        assert e[..l][0] == ':';
      } else {
        // e[..l] starts with "::", and the only "::" in e is at its start
        assert e[..l][1] == ':';
        assert e[|e| - l..][1] == e[|e| - l + 1];
        assert e[|e| - l + 1] != ':';
      }
    }
  }

  /** `path.replace("::ephemeral", "")` on a returned ephemeral path gives back the cache
      path, provided the key itself does not contain the marker. */
  lemma EphemeralMarkerStrips(cfg: Config, key: string)
    requires !Contains(CachePath(cfg, key), EphemeralSuffix)
    ensures Replace(CachePath(cfg, key) + EphemeralSuffix, EphemeralSuffix, "") == CachePath(cfg, key)
  {
    EphemeralSuffixBorderFree();
    ReplaceAppendedPattern(CachePath(cfg, key), EphemeralSuffix);
  }

  // ---------------------------------------------------------------------------------
  // download_pdf_stream

  /** `download_pdf_stream`: the object's bytes; a missing object raises. */
  function DownloadPdfStream(bucket: map<string, seq<byte>>, key: string): (r: Result<seq<byte>>)
    ensures key in bucket <==> r.Ok?
    ensures r.Ok? ==> r.value == bucket[key]
    ensures r.Err? ==> r.error == NoSuchKey(key)
  {
    if key in bucket then Ok(bucket[key]) else Err(NoSuchKey(key))
  }

  // ---------------------------------------------------------------------------------
  // hash_file

  const BlockSize := 8192

  /** `hash_file`: feeds the file to the hasher in blocks of 8192 bytes until a read comes
      back empty; the digest is the digest of the whole file. A missing file raises. */
  method HashFile(disk: Disk, path: string, sha: seq<byte> -> string) returns (r: Result<string>)
    ensures path in disk.files ==> r == Ok(sha(disk.files[path]))
    ensures path !in disk.files ==> r == Err(FileNotFound(path))
  {
    if path !in disk.files {
      return Err(FileNotFound(path));
    }
    var data := disk.files[path];
    var fed: seq<byte> := [];
    var pos := 0;
    while true
      invariant 0 <= pos <= |data| && fed == data[..pos]
      decreases |data| - pos
    {
      var chunk := data[pos..if |data| - pos < BlockSize then |data| else pos + BlockSize];
      if chunk == [] {
        break;
      }
      fed := fed + chunk;
      pos := pos + |chunk|;
    }
    assert data[..|data|] == data;
    return Ok(sha(fed));
  }
}
