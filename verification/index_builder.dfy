/** Incremental index building (backend/main/retrieval/vector_store/index_builder.py): list
    the PDFs, prune the manifest of keys no longer listed, select the keys whose content
    changed, process them, record them in the manifest and build the FAISS index from what
    was processed.

    The executor that runs the per-key tasks is modelled as an in-order loop: the results
    are consumed in submission order, and each task touches only its own key's files.
    `process_file` is called with the path (or bytes) and the extractor; the keyword or
    positional third argument the call sites pass is not modelled. */
module IndexBuilder {
  import opened Wrappers
  import opened Seqs
  import opened PyStr
  import opened PyPath
  import opened Settings
  import opened FileSystem
  import opened Manifest
  import opened S3Helper
  import opened FileProcessor
  import FaissIndexer

  /** Everything outside the process the builder consults: the configuration, the bucket
      with its paged listing, the names in SAMPLE_DIR, the per-file pipeline, SHA-256 and
      the timestamp the manifest records. */
  datatype Env = Env(
    cfg: Config,
    bucket: map<string, seq<byte>>,
    pages: seq<seq<string>>,
    sampleNames: seq<string>,
    stages: Stages,
    sha: seq<byte> -> string,
    now: string)

  /** `os.path.join("faiss_index", "global.index")` */
  const FaissIndexPath := "faiss_index/global.index"

  // ---------------------------------------------------------------------------------
  // list_pdf_files (main/utils/pdf_helper.py)

  /** The PDF keys the builder works on: the bucket's listing on S3, otherwise the names in
      the sample directory, in both cases filtered by a case-insensitive ".pdf" suffix. */
  function PdfListing(env: Env): seq<string> {
    if env.cfg.useS3 then PdfKeys(S3Helper.Flatten(env.pages)) else PdfKeys(env.sampleNames)
  }

  method ListPdfFiles(env: Env) returns (keys: seq<string>)
    ensures keys == PdfListing(env)
    ensures forall k :: k in keys ==> IsPdfKey(k)
  {
    if env.cfg.useS3 {
      keys := ListPdfsInBucket(env.pages);
    } else {
      keys := PdfKeys(env.sampleNames);
      PdfKeysMembership(env.sampleNames);
    }
    PdfKeysMembership(if env.cfg.useS3 then S3Helper.Flatten(env.pages) else env.sampleNames);
  }

  // ---------------------------------------------------------------------------------
  // cleanup_if_ephemeral, cleanup_stale_cache

  /** The files after `cleanup_if_ephemeral(path)`: a path marked "::ephemeral" has its
      unmarked form deleted; any other path deletes nothing. */
  function AfterCleanup(files: map<string, seq<byte>>, path: string): map<string, seq<byte>> {
    if EndsWith(path, EphemeralSuffix) then files - {Replace(path, EphemeralSuffix, "")} else files
  }

  method CleanupIfEphemeral(disk: Disk, path: string)
    modifies disk
    ensures disk.files == AfterCleanup(old(disk.files), path)
    ensures disk.indexFiles == old(disk.indexFiles) && disk.npyFiles == old(disk.npyFiles)
  {
    if EndsWith(path, EphemeralSuffix) {
      // a failed deletion is only logged
      var _ := disk.Remove(Replace(path, EphemeralSuffix, ""));
    }
  }

  lemma EndsWithContains(s: string, pat: string)
    requires EndsWith(s, pat)
    ensures Contains(s, pat)
  {
    assert OccursAt(s, pat, |s| - |pat|);
  }

  /** Cleaning up what `download_pdf` returned deletes the cached copy exactly when the
      path carries the ephemeral marker, and never touches another file. */
  lemma CleanupOfDownloadedPath(files: map<string, seq<byte>>, cachePath: string)
    requires !Contains(cachePath, EphemeralSuffix)
    ensures AfterCleanup(files, cachePath + EphemeralSuffix) == files - {cachePath}
    ensures AfterCleanup(files, cachePath) == files
  {
    EphemeralSuffixBorderFree();
    ReplaceAppendedPattern(cachePath, EphemeralSuffix);
    assert EndsWith(cachePath + EphemeralSuffix, EphemeralSuffix) by {
      assert (cachePath + EphemeralSuffix)[|cachePath|..] == EphemeralSuffix;
    }
    if EndsWith(cachePath, EphemeralSuffix) {
      EndsWithContains(cachePath, EphemeralSuffix);
    }
  }

  /** The cache paths of `keys`. */
  function CachePaths(cfg: Config, keys: seq<string>): (ps: set<string>)
    ensures forall p :: p in ps <==> exists k :: k in keys && p == CachePath(cfg, k)
  {
    if keys == [] then {}
    else
      var init := keys[..|keys| - 1];
      assert keys == init + [keys[|keys| - 1]];
      CachePaths(cfg, init) + {CachePath(cfg, keys[|keys| - 1])}
  }

  /** `cleanup_stale_cache`: deletes the cached copy of every pruned key that has one. */
  method CleanupStaleCache(disk: Disk, cfg: Config, prunedKeys: seq<string>)
    modifies disk
    ensures disk.files == old(disk.files) - CachePaths(cfg, prunedKeys)
    ensures disk.indexFiles == old(disk.indexFiles) && disk.npyFiles == old(disk.npyFiles)
  {
    for i := 0 to |prunedKeys|
      invariant disk.files == old(disk.files) - CachePaths(cfg, prunedKeys[..i])
      invariant disk.indexFiles == old(disk.indexFiles) && disk.npyFiles == old(disk.npyFiles)
    {
      CachePathsSnoc(cfg, prunedKeys, i);
      var cachedPath := PathJoin(cfg.cacheDir, prunedKeys[i]);
      MinusOneMore(old(disk.files), CachePaths(cfg, prunedKeys[..i]), cachedPath);
      if disk.Exists(cachedPath) {
        var _ := disk.Remove(cachedPath);
      }
    }
    PrefixOfPrefix(prunedKeys, |prunedKeys|, 0);
  }

  lemma CachePathsSnoc(cfg: Config, keys: seq<string>, i: nat)
    requires i < |keys|
    ensures CachePaths(cfg, keys[..i + 1]) == CachePaths(cfg, keys[..i]) + {CachePath(cfg, keys[i])}
  {
    PrefixOfPrefix(keys, i + 1, i);
  }

  // ---------------------------------------------------------------------------------
  // The path each key is read from

  /** The file `get_keys_to_index` hashes for `key` once the marker is stripped: the cached
      copy on S3, the sample file otherwise. */
  function KeyPath(cfg: Config, key: string): string {
    if cfg.useS3 then CachePath(cfg, key) else PathJoin(cfg.sampleDir, key)
  }

  /** No key's path contains the ephemeral marker itself. */
  predicate Unmarked(cfg: Config, keys: seq<string>) {
    forall k :: k in keys ==> !Contains(KeyPath(cfg, k), EphemeralSuffix)
  }

  /** Distinct keys are read from distinct paths. */
  predicate DistinctPaths(cfg: Config, keys: seq<string>) {
    forall i, j :: 0 <= i < j < |keys| ==> KeyPath(cfg, keys[i]) != KeyPath(cfg, keys[j])
  }

  /** For a mode other than "none", what one `download_pdf` call does for `key`: the
      marker-stripped path is the key's path, only that path may be added, and cleaning up
      after the call deletes that path exactly in ephemeral mode on S3. */
  lemma DownloadStep(env: Env, files: map<string, seq<byte>>, key: string, mode: string)
    requires mode != "none" && !Contains(KeyPath(env.cfg, key), EphemeralSuffix)
    requires DownloadResult(env.cfg, env.bucket, files, key, Some(mode)).Ok?
    ensures Replace(DownloadResult(env.cfg, env.bucket, files, key, Some(mode)).value, EphemeralSuffix, "")
      == KeyPath(env.cfg, key)
    ensures KeyPath(env.cfg, key) in FilesAfterDownload(env.cfg, env.bucket, files, key, Some(mode))
      <==> (KeyPath(env.cfg, key) in files || env.cfg.useS3)
    ensures KeyPath(env.cfg, key) in files ==>
      FilesAfterDownload(env.cfg, env.bucket, files, key, Some(mode)) == files
    ensures KeyPath(env.cfg, key) !in files && env.cfg.useS3 ==>
      FilesAfterDownload(env.cfg, env.bucket, files, key, Some(mode)) == files[KeyPath(env.cfg, key) := env.bucket[key]]
    ensures !env.cfg.useS3 ==> FilesAfterDownload(env.cfg, env.bucket, files, key, Some(mode)) == files
    ensures AfterCleanup(FilesAfterDownload(env.cfg, env.bucket, files, key, Some(mode)),
                         DownloadResult(env.cfg, env.bucket, files, key, Some(mode)).value) ==
      if env.cfg.useS3 && EffectiveCacheMode(env.cfg, Some(mode)) == "ephemeral"
      then FilesAfterDownload(env.cfg, env.bucket, files, key, Some(mode)) - {KeyPath(env.cfg, key)}
      else FilesAfterDownload(env.cfg, env.bucket, files, key, Some(mode))
  {
    var p := KeyPath(env.cfg, key);
    CleanupOfDownloadedPath(FilesAfterDownload(env.cfg, env.bucket, files, key, Some(mode)), p);
    ReplaceAbsent(p, EphemeralSuffix, "");
    EphemeralSuffixBorderFree();
    ReplaceAppendedPattern(p, EphemeralSuffix);
  }

  /** One selection step changes no file but its key's path. */
  lemma SelectStepFrame(env: Env, manifest: Dict, force: bool, mode: string, s: Selection, key: string, p: string)
    requires mode != "none" && !Contains(KeyPath(env.cfg, key), EphemeralSuffix)
    requires SelectStep(env, manifest, force, mode, s, key).Ok?
    requires p != KeyPath(env.cfg, key)
    ensures var s' := SelectStep(env, manifest, force, mode, s, key).value;
      (p in s'.files <==> p in s.files) && (p in s.files ==> s'.files[p] == s.files[p])
  {
    DownloadStep(env, s.files, key, mode);
  }

  /** One selection step appends its key exactly when the selection rule holds for the
      content found for it, and that content was there to be found. */
  lemma SelectStepKeys(env: Env, manifest: Dict, force: bool, mode: string, s: Selection, key: string)
    requires mode != "none" && !Contains(KeyPath(env.cfg, key), EphemeralSuffix)
    requires SelectStep(env, manifest, force, mode, s, key).Ok?
    ensures KeyPath(env.cfg, key) in s.files || (env.cfg.useS3 && key in env.bucket)
    ensures SelectStep(env, manifest, force, mode, s, key).value.keys ==
      s.keys + if Changed(env, manifest, force, Seen(env, s.files, key), key) then [key] else []
  {
    DownloadStep(env, s.files, key, mode);
  }

  // ---------------------------------------------------------------------------------
  // get_keys_to_index

  /** The keys selected so far and the files as they stand. */
  datatype Selection = Selection(keys: seq<string>, files: map<string, seq<byte>>)

  /** The content `key` is hashed with: its file once downloaded. */
  function Seen(env: Env, files: map<string, seq<byte>>, key: string): seq<byte>
    requires KeyPath(env.cfg, key) in files || (env.cfg.useS3 && key in env.bucket)
  {
    if KeyPath(env.cfg, key) in files then files[KeyPath(env.cfg, key)] else env.bucket[key]
  }

  /** The selection rule: forced, never indexed, or indexed with another hash. */
  predicate Changed(env: Env, manifest: Dict, force: bool, content: seq<byte>, key: string) {
    force || key !in manifest.entries || manifest.entries[key].hash != env.sha(content)
  }

  /** One iteration of the selection loop. */
  function SelectStep(env: Env, manifest: Dict, force: bool, mode: string, s: Selection, key: string): Result<Selection> {
    if mode == "none" then Ok(Selection(s.keys + [key], s.files))
    else match DownloadResult(env.cfg, env.bucket, s.files, key, Some(mode))
      case Err(e) => Err(e)
      case Ok(localPath) =>
        var files1 := FilesAfterDownload(env.cfg, env.bucket, s.files, key, Some(mode));
        var actualPath := Replace(localPath, EphemeralSuffix, "");
        if actualPath !in files1 then Err(FileNotFound(actualPath))
        else if Changed(env, manifest, force, files1[actualPath], key) then Ok(Selection(s.keys + [key], files1))
        else Ok(Selection(s.keys, AfterCleanup(files1, localPath)))
  }

  /** The selection loop run over `keys` from `s`; the first exception ends it. */
  function SelectFrom(env: Env, manifest: Dict, force: bool, mode: string, s: Selection, keys: seq<string>): Result<Selection> {
    if keys == [] then Ok(s)
    else match SelectFrom(env, manifest, force, mode, s, keys[..|keys| - 1])
      case Err(e) => Err(e)
      case Ok(s') => SelectStep(env, manifest, force, mode, s', keys[|keys| - 1])
  }

  lemma {:induction false} SelectErrorSticks(env: Env, manifest: Dict, force: bool, mode: string, s: Selection,
                                             a: seq<string>, b: seq<string>)
    requires SelectFrom(env, manifest, force, mode, s, a).Err?
    ensures SelectFrom(env, manifest, force, mode, s, a + b) == SelectFrom(env, manifest, force, mode, s, a)
    decreases |b|
  {
    if b == [] {
      assert a + b == a;
    } else {
      assert (a + b)[..|a + b| - 1] == a + b[..|b| - 1];
      SelectErrorSticks(env, manifest, force, mode, s, a, b[..|b| - 1]);
    }
  }

  /** One iteration of the selection loop of `get_keys_to_index`: whether `key` is
      selected, as `SelectStep` describes it. */
  method SelectKey(disk: Disk, env: Env, manifest: Dict, force: bool, mode: string, key: string,
                   ghost s0: Selection, ghost done: seq<string>, ghost cur: Selection)
      returns (r: Result<bool>)
    requires SelectFrom(env, manifest, force, mode, s0, done) == Ok(cur) && cur.files == disk.files
    modifies disk
    ensures var spec := SelectFrom(env, manifest, force, mode, s0, done + [key]);
      (r.Ok? <==> spec.Ok?) &&
      (r.Ok? ==> spec.value == Selection(cur.keys + if r.value then [key] else [], disk.files)) &&
      (r.Err? ==> r.error == spec.error)
    ensures disk.indexFiles == old(disk.indexFiles) && disk.npyFiles == old(disk.npyFiles)
  {
    assert (done + [key])[..|done|] == done;
    SelectStepAppends(env, manifest, force, mode, cur, key);
    if mode == "none" {
      // streaming mode always reindexes
      return Ok(true);
    }
    var localPath := DownloadPdf(disk, env.bucket, env.cfg, key, Some(mode));
    if localPath.Err? {
      return Err(localPath.error);
    }
    var actualPath := Replace(localPath.value, EphemeralSuffix, "");
    var currentHash := HashFile(disk, actualPath, env.sha);
    if currentHash.Err? {
      return Err(currentHash.error);
    }
    if force || key !in manifest.entries || manifest.entries[key].hash != currentHash.value {
      return Ok(true);
    }
    CleanupIfEphemeral(disk, localPath.value);
    return Ok(false);
  }

  /** The keys a step appends do not depend on the keys selected before it, and neither
      do its files. */
  lemma SelectStepAppends(env: Env, manifest: Dict, force: bool, mode: string, s: Selection, key: string)
    ensures var one := SelectStep(env, manifest, force, mode, Selection([], s.files), key);
      var step := SelectStep(env, manifest, force, mode, s, key);
      (step.Ok? <==> one.Ok?) &&
      (step.Ok? ==> step.value == Selection(s.keys + one.value.keys, one.value.files)) &&
      (step.Err? ==> step.error == one.error)
  {
  }

  /** `get_keys_to_index` */
  method GetKeysToIndex(disk: Disk, env: Env, allKeys: seq<string>, manifest: Dict, force: bool, mode: string)
      returns (r: Result<seq<string>>)
    modifies disk
    ensures var spec := SelectFrom(env, manifest, force, mode, Selection([], old(disk.files)), allKeys);
      (r.Ok? <==> spec.Ok?) &&
      (r.Ok? ==> r.value == spec.value.keys && disk.files == spec.value.files) &&
      (r.Err? ==> r.error == spec.error)
    ensures disk.indexFiles == old(disk.indexFiles) && disk.npyFiles == old(disk.npyFiles)
  {
    var keysToIndex: seq<string> := [];
    ghost var s0 := Selection([], disk.files);
    for i := 0 to |allKeys|
      invariant SelectFrom(env, manifest, force, mode, s0, allKeys[..i]) == Ok(Selection(keysToIndex, disk.files))
      invariant disk.indexFiles == old(disk.indexFiles) && disk.npyFiles == old(disk.npyFiles)
    {
      var key := allKeys[i];
      TakeSnoc(allKeys, i);
      var selected := SelectKey(disk, env, manifest, force, mode, key, s0, allKeys[..i], Selection(keysToIndex, disk.files));
      if selected.Err? {
        SelectErrorSticks(env, manifest, force, mode, s0, allKeys[..i + 1], allKeys[i + 1..]);
        return Err(selected.error);
      }
      if selected.value {
        keysToIndex := keysToIndex + [key];
      } else {
        assert keysToIndex + [] == keysToIndex;
      }
    }
    assert allKeys[..|allKeys|] == allKeys;
    r := Ok(keysToIndex);
  }

  /** In mode "none" every key is selected, in order, and no file is touched. */
  lemma {:induction false} NoneModeSelectsAll(env: Env, manifest: Dict, force: bool, s: Selection, keys: seq<string>)
    ensures SelectFrom(env, manifest, force, "none", s, keys) == Ok(Selection(s.keys + keys, s.files))
  {
    if keys != [] {
      NoneModeSelectsAll(env, manifest, force, s, keys[..|keys| - 1]);
      assert s.keys + keys[..|keys| - 1] + [keys[|keys| - 1]] == s.keys + keys;
    } else {
      assert s.keys + keys == s.keys;
    }
  }

  /** The selection loop touches no file but the paths of the keys it visits. */
  lemma {:induction false} SelectFrame(env: Env, manifest: Dict, force: bool, mode: string, s: Selection,
                                       keys: seq<string>, p: string)
    requires mode != "none" && Unmarked(env.cfg, keys)
    requires SelectFrom(env, manifest, force, mode, s, keys).Ok?
    requires forall k :: k in keys ==> KeyPath(env.cfg, k) != p
    ensures var s' := SelectFrom(env, manifest, force, mode, s, keys).value;
      (p in s'.files <==> p in s.files) && (p in s.files ==> s'.files[p] == s.files[p])
  {
    if keys != [] {
      var init, last := keys[..|keys| - 1], keys[|keys| - 1];
      assert forall k :: k in init ==> k in keys;
      SelectFrame(env, manifest, force, mode, s, init, p);
      var s1 := SelectFrom(env, manifest, force, mode, s, init).value;
      SelectStepFrame(env, manifest, force, mode, s1, last, p);
    }
  }

  /** The keys of `keys` the selection rule picks, judged against the files `files`. */
  function ChangedKeys(env: Env, manifest: Dict, force: bool, files: map<string, seq<byte>>, keys: seq<string>): seq<string>
    requires forall k :: k in keys ==> KeyPath(env.cfg, k) in files || (env.cfg.useS3 && k in env.bucket)
  {
    if keys == [] then []
    else
      var last := keys[|keys| - 1];
      ChangedKeys(env, manifest, force, files, keys[..|keys| - 1])
        + (if Changed(env, manifest, force, Seen(env, files, last), last) then [last] else [])
  }

  /** Outside mode "none", with keys read from distinct unmarked paths, a successful
      selection is exactly the keys that are forced, new, or whose content hashes
      differently from the manifest's record, in listing order; the content is the file
      already present, or else the object downloaded for it. Every key had its file. */
  lemma {:induction false} SelectionIsFilter(env: Env, manifest: Dict, force: bool, mode: string,
                                             files: map<string, seq<byte>>, keys: seq<string>)
    requires mode != "none" && Unmarked(env.cfg, keys) && DistinctPaths(env.cfg, keys)
    requires SelectFrom(env, manifest, force, mode, Selection([], files), keys).Ok?
    ensures forall k :: k in keys ==> KeyPath(env.cfg, k) in files || (env.cfg.useS3 && k in env.bucket)
    ensures SelectFrom(env, manifest, force, mode, Selection([], files), keys).value.keys ==
      ChangedKeys(env, manifest, force, files, keys)
  {
    if keys != [] {
      var init, last := keys[..|keys| - 1], keys[|keys| - 1];
      LastPathDistinct(env.cfg, keys);
      SelectionIsFilter(env, manifest, force, mode, files, init);
      SelectLastStep(env, manifest, force, mode, Selection([], files), keys);
      var s1 := SelectFrom(env, manifest, force, mode, Selection([], files), init).value;
      SelectFrame(env, manifest, force, mode, Selection([], files), init, KeyPath(env.cfg, last));
      assert Seen(env, s1.files, last) == Seen(env, files, last);
    }
  }

  /** The keys before the last are unmarked and read from distinct paths, none of them
      the last key's. */
  lemma LastPathDistinct(cfg: Config, keys: seq<string>)
    requires keys != [] && Unmarked(cfg, keys) && DistinctPaths(cfg, keys)
    ensures var init, last := keys[..|keys| - 1], keys[|keys| - 1];
      Unmarked(cfg, init) && DistinctPaths(cfg, init) && !Contains(KeyPath(cfg, last), EphemeralSuffix) &&
      forall k :: k in init ==> KeyPath(cfg, k) != KeyPath(cfg, last)
  {
    var init, last := keys[..|keys| - 1], keys[|keys| - 1];
    assert forall k :: k in init ==> k in keys;
    forall k | k in init ensures KeyPath(cfg, k) != KeyPath(cfg, last) {
      var i :| 0 <= i < |init| && init[i] == k;
      assert keys[i] == k;
    }
  }

  /** The last step of a successful selection: the selection before it succeeded, the
      last key's content was there to be found, and the key was appended exactly when the
      selection rule holds for that content. */
  lemma SelectLastStep(env: Env, manifest: Dict, force: bool, mode: string, s: Selection, keys: seq<string>)
    requires keys != [] && mode != "none" && !Contains(KeyPath(env.cfg, keys[|keys| - 1]), EphemeralSuffix)
    requires SelectFrom(env, manifest, force, mode, s, keys).Ok?
    ensures var s1, last := SelectFrom(env, manifest, force, mode, s, keys[..|keys| - 1]), keys[|keys| - 1];
      s1.Ok? && (KeyPath(env.cfg, last) in s1.value.files || (env.cfg.useS3 && last in env.bucket)) &&
      SelectFrom(env, manifest, force, mode, s, keys).value.keys ==
        s1.value.keys + if Changed(env, manifest, force, Seen(env, s1.value.files, last), last) then [last] else []
  {
    SelectStepKeys(env, manifest, force, mode, SelectFrom(env, manifest, force, mode, s, keys[..|keys| - 1]).value,
                   keys[|keys| - 1]);
  }

  /** After one selection step the key's own file is kept exactly when the key was
      selected or the run does not delete ephemeral copies. */
  lemma SelectStepKeepsFile(env: Env, manifest: Dict, force: bool, mode: string, s: Selection, key: string)
    requires mode != "none" && !Contains(KeyPath(env.cfg, key), EphemeralSuffix)
    requires SelectStep(env, manifest, force, mode, s, key).Ok?
    ensures KeyPath(env.cfg, key) in s.files || (env.cfg.useS3 && key in env.bucket)
    ensures KeyPath(env.cfg, key) in SelectStep(env, manifest, force, mode, s, key).value.files <==>
      Changed(env, manifest, force, Seen(env, s.files, key), key) ||
      !(env.cfg.useS3 && EffectiveCacheMode(env.cfg, Some(mode)) == "ephemeral")
  {
    DownloadStep(env, s.files, key, mode);
  }

  lemma {:induction false} SelectFromAppend(env: Env, manifest: Dict, force: bool, mode: string, s: Selection,
                                            a: seq<string>, b: seq<string>)
    requires SelectFrom(env, manifest, force, mode, s, a).Ok?
    ensures SelectFrom(env, manifest, force, mode, s, a + b) ==
      SelectFrom(env, manifest, force, mode, SelectFrom(env, manifest, force, mode, s, a).value, b)
    decreases |b|
  {
    if b == [] {
      assert a + b == a;
    } else {
      assert (a + b)[..|a + b| - 1] == a + b[..|b| - 1];
      SelectFromAppend(env, manifest, force, mode, s, a, b[..|b| - 1]);
    }
  }

  /** A successful run is a successful run of any prefix followed by the rest. */
  lemma SelectSplit(env: Env, manifest: Dict, force: bool, mode: string, s: Selection, keys: seq<string>, n: nat)
    requires n <= |keys|
    requires SelectFrom(env, manifest, force, mode, s, keys).Ok?
    ensures SelectFrom(env, manifest, force, mode, s, keys[..n]).Ok?
    ensures SelectFrom(env, manifest, force, mode, s, keys) ==
      SelectFrom(env, manifest, force, mode, SelectFrom(env, manifest, force, mode, s, keys[..n]).value, keys[n..])
  {
    assert keys[..n] + keys[n..] == keys;
    if SelectFrom(env, manifest, force, mode, s, keys[..n]).Err? {
      SelectErrorSticks(env, manifest, force, mode, s, keys[..n], keys[n..]);
    }
    SelectFromAppend(env, manifest, force, mode, s, keys[..n], keys[n..]);
  }

  /** With distinct paths, no other key's path is the path of `keys[i]`. */
  lemma OtherPaths(cfg: Config, keys: seq<string>, i: nat)
    requires DistinctPaths(cfg, keys) && i < |keys|
    ensures forall k :: k in keys[..i] ==> KeyPath(cfg, k) != KeyPath(cfg, keys[i])
    ensures forall k :: k in keys[i + 1..] ==> KeyPath(cfg, k) != KeyPath(cfg, keys[i])
  {
    forall k | k in keys[..i] ensures KeyPath(cfg, k) != KeyPath(cfg, keys[i]) {
      var j :| 0 <= j < i && keys[..i][j] == k;
    }
    forall k | k in keys[i + 1..] ensures KeyPath(cfg, k) != KeyPath(cfg, keys[i]) {
      var j :| 0 <= j < |keys| - i - 1 && keys[i + 1..][j] == k;
      assert keys[i + 1 + j] == k;
    }
  }

  /** Skipped keys have their ephemeral copy deleted, selected keys keep theirs: after a
      successful selection a key's file is present exactly when the key was selected or
      the run is not in ephemeral mode on S3. */
  lemma SkippedKeysCleanedUp(env: Env, manifest: Dict, force: bool, mode: string,
                             files: map<string, seq<byte>>, keys: seq<string>, i: nat)
    requires mode != "none" && Unmarked(env.cfg, keys) && DistinctPaths(env.cfg, keys)
    requires SelectFrom(env, manifest, force, mode, Selection([], files), keys).Ok?
    requires i < |keys|
    ensures KeyPath(env.cfg, keys[i]) in files || (env.cfg.useS3 && keys[i] in env.bucket)
    ensures KeyPath(env.cfg, keys[i]) in SelectFrom(env, manifest, force, mode, Selection([], files), keys).value.files <==>
      Changed(env, manifest, force, Seen(env, files, keys[i]), keys[i]) ||
      !(env.cfg.useS3 && EffectiveCacheMode(env.cfg, Some(mode)) == "ephemeral")
  {
    var key, p, s0 := keys[i], KeyPath(env.cfg, keys[i]), Selection([], files);
    var s1, s2 := SelectAt(env, manifest, force, mode, s0, keys, i);
    OtherPaths(env.cfg, keys, i);
    UnmarkedParts(env.cfg, keys, i);
    SelectFrame(env, manifest, force, mode, s0, keys[..i], p);
    SelectStepKeepsFile(env, manifest, force, mode, s1, key);
    SelectFrame(env, manifest, force, mode, s2, keys[i + 1..], p);
  }

  /** A successful selection over `keys` passes through key `i`: the keys before it, its
      own step, then the keys after it. */
  lemma SelectAt(env: Env, manifest: Dict, force: bool, mode: string, s0: Selection, keys: seq<string>, i: nat)
      returns (s1: Selection, s2: Selection)
    requires i < |keys|
    requires SelectFrom(env, manifest, force, mode, s0, keys).Ok?
    ensures SelectFrom(env, manifest, force, mode, s0, keys[..i]) == Ok(s1)
    ensures SelectStep(env, manifest, force, mode, s1, keys[i]) == Ok(s2)
    ensures SelectFrom(env, manifest, force, mode, s0, keys) == SelectFrom(env, manifest, force, mode, s2, keys[i + 1..])
  {
    SelectSplit(env, manifest, force, mode, s0, keys, i + 1);
    var front := keys[..i + 1];
    PrefixOfPrefix(keys, i + 1, i);
    assert front[..|front| - 1] == keys[..i] && front[|front| - 1] == keys[i];
    s1 := SelectFrom(env, manifest, force, mode, s0, keys[..i]).value;
    s2 := SelectFrom(env, manifest, force, mode, s0, front).value;
  }

  /** The keys around key `i` are unmarked when all keys are. */
  lemma UnmarkedParts(cfg: Config, keys: seq<string>, i: nat)
    requires Unmarked(cfg, keys) && i < |keys|
    ensures Unmarked(cfg, keys[..i]) && Unmarked(cfg, keys[i + 1..])
    ensures !Contains(KeyPath(cfg, keys[i]), EphemeralSuffix)
  {
    assert keys[i] in keys;
    assert forall k :: k in keys[..i] ==> k in keys;
    assert forall k :: k in keys[i + 1..] ==> k in keys;
  }

  // ---------------------------------------------------------------------------------
  // index_files

  /** What `index_files` has gathered so far, with the files and the manifest as they
      stand. */
  datatype Gathered = Gathered(chunks: seq<string>, embeddings: seq<Vector>,
                               files: map<string, seq<byte>>, manifest: Dict)

  /** One task: in mode "none" the object is streamed and its bytes processed; otherwise
      it is downloaded, the unmarked path processed and an ephemeral copy deleted. */
  function TaskResult(env: Env, mode: string, files: map<string, seq<byte>>, key: string)
    : Result<((seq<string>, seq<Vector>), map<string, seq<byte>>)>
  {
    if mode == "none" then
      match DownloadPdfStream(env.bucket, key)
      case Err(e) => Err(e)
      case Ok(data) => Ok((ProcessFile(Bytes(data), env.stages), files))
    else
      match DownloadResult(env.cfg, env.bucket, files, key, Some(mode))
      case Err(e) => Err(e)
      case Ok(localPath) =>
        var files1 := FilesAfterDownload(env.cfg, env.bucket, files, key, Some(mode));
        Ok((ProcessFile(Path(Replace(localPath, EphemeralSuffix, "")), env.stages), AfterCleanup(files1, localPath)))
  }

  /** `update_manifest_entry` as the result loops call it: the key's cache path, with any
      marker stripped, is hashed and measured; a missing file raises. */
  function RecordEntry(env: Env, manifest: Dict, files: map<string, seq<byte>>, key: string,
                       out: (seq<string>, seq<Vector>)): (r: Result<Dict>)
    requires Wf(manifest)
    ensures r.Ok? ==> Wf(r.value)
  {
    var actualPath := Replace(CachePath(env.cfg, key), EphemeralSuffix, "");
    if actualPath !in files then Err(FileNotFound(actualPath))
    else
      var content := files[actualPath];
      Ok(Put(manifest, key, Entry(env.sha(content), env.now, |out.0|, |out.1|, Some(|content|), "s3")))
  }

  /** One iteration of the result loop: the key's chunks and embeddings are appended and,
      unless in mode "none", the key's manifest entry is rewritten from its cached file. */
  function IndexStep(env: Env, mode: string, g: Gathered, key: string): (r: Result<Gathered>)
    requires Wf(g.manifest)
    ensures r.Ok? ==> Wf(r.value.manifest)
  {
    match TaskResult(env, mode, g.files, key)
    case Err(e) => Err(e)
    case Ok(task) =>
      var (out, files2) := task;
      var chunks, embeddings := g.chunks + out.0, g.embeddings + out.1;
      if mode == "none" then Ok(Gathered(chunks, embeddings, files2, g.manifest))
      else
        match RecordEntry(env, g.manifest, files2, key, out)
        case Err(e) => Err(e)
        case Ok(manifest) => Ok(Gathered(chunks, embeddings, files2, manifest))
  }

  /** The loop of `index_files` over `keys` from `g`; the first exception ends it. */
  function IndexFrom(env: Env, mode: string, g: Gathered, keys: seq<string>): (r: Result<Gathered>)
    requires Wf(g.manifest)
    ensures r.Ok? ==> Wf(r.value.manifest)
  {
    if keys == [] then Ok(g)
    else match IndexFrom(env, mode, g, keys[..|keys| - 1])
      case Err(e) => Err(e)
      case Ok(g') => IndexStep(env, mode, g', keys[|keys| - 1])
  }

  lemma {:induction false} IndexErrorSticks(env: Env, mode: string, g: Gathered, a: seq<string>, b: seq<string>)
    requires Wf(g.manifest)
    requires IndexFrom(env, mode, g, a).Err?
    ensures IndexFrom(env, mode, g, a + b) == IndexFrom(env, mode, g, a)
    decreases |b|
  {
    if b == [] {
      assert a + b == a;
    } else {
      assert (a + b)[..|a + b| - 1] == a + b[..|b| - 1];
      IndexErrorSticks(env, mode, g, a, b[..|b| - 1]);
    }
  }

  /** The nested `task` of `index_files`. */
  method Task(disk: Disk, env: Env, mode: string, key: string) returns (r: Result<(seq<string>, seq<Vector>)>)
    modifies disk
    ensures var spec := TaskResult(env, mode, old(disk.files), key);
      (r.Ok? <==> spec.Ok?) &&
      (r.Ok? ==> r.value == spec.value.0 && disk.files == spec.value.1) &&
      (r.Err? ==> r.error == spec.error)
    ensures disk.indexFiles == old(disk.indexFiles) && disk.npyFiles == old(disk.npyFiles)
  {
    if mode == "none" {
      var pdfBytes := DownloadPdfStream(env.bucket, key);
      if pdfBytes.Err? {
        return Err(pdfBytes.error);
      }
      return Ok(ProcessFile(Bytes(pdfBytes.value), env.stages));
    } else {
      var localPath := DownloadPdf(disk, env.bucket, env.cfg, key, Some(mode));
      if localPath.Err? {
        return Err(localPath.error);
      }
      var actualPath := Replace(localPath.value, EphemeralSuffix, "");
      var result := ProcessFile(Path(actualPath), env.stages);
      CleanupIfEphemeral(disk, localPath.value);
      return Ok(result);
    }
  }

  /** One iteration of the result loop of `index_files`: the key's task, then, unless in
      mode "none", its manifest entry rewritten from the hash and size of its cached
      file. It does what `IndexStep` describes. */
  method IndexKey(disk: Disk, mf: ManifestFile, env: Env, mode: string, key: string,
                  ghost g0: Gathered, ghost done: seq<string>, ghost g: Gathered)
      returns (r: Result<(seq<string>, seq<Vector>)>)
    requires mf.Valid() && Wf(g0.manifest) && IndexFrom(env, mode, g0, done) == Ok(g)
    requires g.files == disk.files && g.manifest == mf.Loaded()
    modifies disk, mf
    ensures mf.Valid()
    ensures var spec := IndexFrom(env, mode, g0, done + [key]);
      (r.Ok? <==> spec.Ok?) &&
      (r.Ok? ==> spec.value == Gathered(g.chunks + r.value.0, g.embeddings + r.value.1, disk.files, mf.Loaded())) &&
      (r.Err? ==> r.error == spec.error)
    ensures disk.indexFiles == old(disk.indexFiles) && disk.npyFiles == old(disk.npyFiles)
    ensures mode == "none" ==> mf.present == old(mf.present) && mf.parses == old(mf.parses) && mf.stored == old(mf.stored)
  {
    assert (done + [key])[..|done|] == done;
    var result := Task(disk, env, mode, key);
    if result.Err? {
      return Err(result.error);
    }
    var (chunks, embeddings) := result.value;
    if mode != "none" {
      var localPath := PathJoin(env.cfg.cacheDir, key);
      var actualPath := Replace(localPath, EphemeralSuffix, "");
      var hashValue := HashFile(disk, actualPath, env.sha);
      if hashValue.Err? {
        return Err(hashValue.error);
      }
      var size := |disk.files[actualPath]|;
      mf.UpdateEntry(key, hashValue.value, |chunks|, |embeddings|, Some(size), "s3", env.now);
    }
    r := Ok((chunks, embeddings));
  }

  /** `index_files`: runs each key's task and consumes the results in key order. */
  method IndexFiles(disk: Disk, mf: ManifestFile, env: Env, keysToIndex: seq<string>, mode: string)
      returns (r: Result<(seq<string>, seq<Vector>)>)
    requires mf.Valid()
    modifies disk, mf
    ensures mf.Valid()
    ensures var spec := IndexFrom(env, mode, Gathered([], [], old(disk.files), old(mf.Loaded())), keysToIndex);
      (r.Ok? <==> spec.Ok?) &&
      (r.Ok? ==> r.value == (spec.value.chunks, spec.value.embeddings) &&
                 disk.files == spec.value.files && mf.Loaded() == spec.value.manifest) &&
      (r.Err? ==> r.error == spec.error)
    ensures disk.indexFiles == old(disk.indexFiles) && disk.npyFiles == old(disk.npyFiles)
    ensures mode == "none" ==> mf.present == old(mf.present) && mf.parses == old(mf.parses) && mf.stored == old(mf.stored)
  {
    var allChunks: seq<string> := [];
    var allEmbeddings: seq<Vector> := [];
    ghost var g0 := Gathered([], [], disk.files, mf.Loaded());
    for i := 0 to |keysToIndex|
      invariant mf.Valid()
      invariant IndexFrom(env, mode, g0, keysToIndex[..i]) == Ok(Gathered(allChunks, allEmbeddings, disk.files, mf.Loaded()))
      invariant disk.indexFiles == old(disk.indexFiles) && disk.npyFiles == old(disk.npyFiles)
      invariant mode == "none" ==> mf.present == old(mf.present) && mf.parses == old(mf.parses) && mf.stored == old(mf.stored)
    {
      var key := keysToIndex[i];
      TakeSnoc(keysToIndex, i);
      var result := IndexKey(disk, mf, env, mode, key, g0, keysToIndex[..i],
                             Gathered(allChunks, allEmbeddings, disk.files, mf.Loaded()));
      if result.Err? {
        IndexErrorSticks(env, mode, g0, keysToIndex[..i + 1], keysToIndex[i + 1..]);
        return Err(result.error);
      }
      allChunks := allChunks + result.value.0;
      allEmbeddings := allEmbeddings + result.value.1;
    }
    assert keysToIndex[..|keysToIndex|] == keysToIndex;
    r := Ok((allChunks, allEmbeddings));
  }

  /** The chunks and embeddings `process_file` yields for `key`: from the streamed bytes
      in mode "none", from the key's file otherwise. */
  function KeyOutput(env: Env, mode: string, key: string): (seq<string>, seq<Vector>) {
    if mode == "none" then
      if key in env.bucket then ProcessFile(Bytes(env.bucket[key]), env.stages) else ([], [])
    else ProcessFile(Path(KeyPath(env.cfg, key)), env.stages)
  }

  /** Every key's chunks, one key after another. */
  function AllChunks(env: Env, mode: string, keys: seq<string>): seq<string> {
    if keys == [] then [] else AllChunks(env, mode, keys[..|keys| - 1]) + KeyOutput(env, mode, keys[|keys| - 1]).0
  }

  /** Every key's embeddings, one key after another. */
  function AllEmbeddings(env: Env, mode: string, keys: seq<string>): seq<Vector> {
    if keys == [] then [] else AllEmbeddings(env, mode, keys[..|keys| - 1]) + KeyOutput(env, mode, keys[|keys| - 1]).1
  }

  /** What one successful step appends, and what it does to the manifest. */
  lemma IndexStepFacts(env: Env, mode: string, g: Gathered, key: string)
    requires Wf(g.manifest)
    requires mode == "none" || !Contains(KeyPath(env.cfg, key), EphemeralSuffix)
    requires IndexStep(env, mode, g, key).Ok?
    ensures var g' := IndexStep(env, mode, g, key).value;
      g'.chunks == g.chunks + KeyOutput(env, mode, key).0 &&
      g'.embeddings == g.embeddings + KeyOutput(env, mode, key).1
    ensures mode == "none" ==> (key in env.bucket &&
      IndexStep(env, mode, g, key).value.manifest == g.manifest &&
      IndexStep(env, mode, g, key).value.files == g.files)
    ensures mode != "none" ==> exists e: Entry ::
      IndexStep(env, mode, g, key).value.manifest == Put(g.manifest, key, e) &&
      e.chunkCount == |KeyOutput(env, mode, key).0| && e.embeddingCount == |KeyOutput(env, mode, key).1| &&
      e.indexedAt == env.now && e.source == "s3"
  {
    if mode == "none" {
      IndexStepStreamed(env, g, key);
    } else {
      var e := IndexStepCached(env, mode, g, key);
    }
  }

  /** In mode "none" a step appends the streamed object's output and changes no file and
      no entry. */
  lemma IndexStepStreamed(env: Env, g: Gathered, key: string)
    requires Wf(g.manifest)
    requires IndexStep(env, "none", g, key).Ok?
    ensures key in env.bucket
    ensures IndexStep(env, "none", g, key).value ==
      Gathered(g.chunks + KeyOutput(env, "none", key).0, g.embeddings + KeyOutput(env, "none", key).1,
               g.files, g.manifest)
  {
  }

  /** In another mode a step appends the output of the key's file and puts the returned
      entry for the key. */
  lemma IndexStepCached(env: Env, mode: string, g: Gathered, key: string) returns (e: Entry)
    requires Wf(g.manifest)
    requires mode != "none" && !Contains(KeyPath(env.cfg, key), EphemeralSuffix)
    requires IndexStep(env, mode, g, key).Ok?
    ensures var g' := IndexStep(env, mode, g, key).value;
      g'.chunks == g.chunks + KeyOutput(env, mode, key).0 &&
      g'.embeddings == g.embeddings + KeyOutput(env, mode, key).1 &&
      g'.manifest == Put(g.manifest, key, e)
    ensures e.chunkCount == |KeyOutput(env, mode, key).0| && e.embeddingCount == |KeyOutput(env, mode, key).1|
    ensures e.indexedAt == env.now && e.source == "s3"
  {
    DownloadStep(env, g.files, key, mode);
    var task := TaskResult(env, mode, g.files, key).value;
    var out, files2 := task.0, task.1;
    assert out == KeyOutput(env, mode, key);
    var content := files2[Replace(CachePath(env.cfg, key), EphemeralSuffix, "")];
    e := Entry(env.sha(content), env.now, |out.0|, |out.1|, Some(|content|), "s3");
  }

  /** A run over `init + [last]` is a run over `init` followed by one step. */
  lemma IndexSnoc(env: Env, mode: string, g: Gathered, keys: seq<string>)
    requires Wf(g.manifest) && keys != []
    requires mode == "none" || Unmarked(env.cfg, keys)
    requires IndexFrom(env, mode, g, keys).Ok?
    ensures IndexFrom(env, mode, g, keys[..|keys| - 1]).Ok?
    ensures IndexFrom(env, mode, g, keys) ==
      IndexStep(env, mode, IndexFrom(env, mode, g, keys[..|keys| - 1]).value, keys[|keys| - 1])
    ensures mode == "none" || Unmarked(env.cfg, keys[..|keys| - 1])
    ensures mode == "none" || !Contains(KeyPath(env.cfg, keys[|keys| - 1]), EphemeralSuffix)
  {
    assert keys[|keys| - 1] in keys;
    assert forall k :: k in keys[..|keys| - 1] ==> k in keys;
  }

  /** The gathered chunks and embeddings are every key's, concatenated in key order; only
      the listed keys' chunks are there. */
  lemma {:induction false} IndexedInKeyOrder(env: Env, mode: string, g: Gathered, keys: seq<string>)
    requires Wf(g.manifest) && (mode == "none" || Unmarked(env.cfg, keys))
    requires IndexFrom(env, mode, g, keys).Ok?
    ensures IndexFrom(env, mode, g, keys).value.chunks == g.chunks + AllChunks(env, mode, keys)
    ensures IndexFrom(env, mode, g, keys).value.embeddings == g.embeddings + AllEmbeddings(env, mode, keys)
  {
    if keys == [] {
      assert g.chunks + [] == g.chunks && g.embeddings + [] == g.embeddings;
    } else {
      var init, last := keys[..|keys| - 1], keys[|keys| - 1];
      IndexSnoc(env, mode, g, keys);
      IndexedInKeyOrder(env, mode, g, init);
      IndexStepFacts(env, mode, IndexFrom(env, mode, g, init).value, last);
      ConcatSnoc(g.chunks, AllChunks(env, mode, init), KeyOutput(env, mode, last).0);
      ConcatSnoc(g.embeddings, AllEmbeddings(env, mode, init), KeyOutput(env, mode, last).1);
    }
  }

  lemma ConcatSnoc<T>(a: seq<T>, b: seq<T>, c: seq<T>)
    ensures a + b + c == a + (b + c)
  {
  }

  /** Outside mode "none", every processed key's manifest entry records its chunk and
      embedding counts, the run's timestamp and the source "s3"; every other entry is
      left as it was. */
  lemma {:induction false} IndexRecordsEveryKey(env: Env, mode: string, g: Gathered, keys: seq<string>)
    requires Wf(g.manifest) && mode != "none" && Unmarked(env.cfg, keys)
    requires IndexFrom(env, mode, g, keys).Ok?
    ensures var m := IndexFrom(env, mode, g, keys).value.manifest;
      forall k :: k in keys ==> (k in m.entries &&
        m.entries[k].chunkCount == |KeyOutput(env, mode, k).0| &&
        m.entries[k].embeddingCount == |KeyOutput(env, mode, k).1| &&
        m.entries[k].indexedAt == env.now && m.entries[k].source == "s3")
    ensures var m := IndexFrom(env, mode, g, keys).value.manifest;
      forall k :: k !in keys ==> ((k in m.entries <==> k in g.manifest.entries) &&
        (k in g.manifest.entries ==> m.entries[k] == g.manifest.entries[k]))
  {
    if keys != [] {
      var init, last := keys[..|keys| - 1], keys[|keys| - 1];
      SnocMembers(keys);
      var e := IndexLastEntry(env, mode, g, keys);
      IndexRecordsEveryKey(env, mode, g, init);
      var gi := IndexFrom(env, mode, g, init).value;
      forall k | true {
        PutSetsOnlyKey(gi.manifest, last, e, k);
      }
    }
  }

  /** A key is in a non-empty sequence exactly when it is the last one or comes before
      it. */
  lemma SnocMembers(keys: seq<string>)
    requires keys != []
    ensures forall k :: k in keys <==> k in keys[..|keys| - 1] || k == keys[|keys| - 1]
  {
    assert keys == keys[..|keys| - 1] + [keys[|keys| - 1]];
  }

  /** The last step of a successful run outside mode "none" writes the last key's entry,
      with its counts, the run's time and the source "s3", over the manifest before it. */
  lemma IndexLastEntry(env: Env, mode: string, g: Gathered, keys: seq<string>) returns (e: Entry)
    requires Wf(g.manifest) && keys != [] && mode != "none" && Unmarked(env.cfg, keys)
    requires IndexFrom(env, mode, g, keys).Ok?
    ensures var gi, last := IndexFrom(env, mode, g, keys[..|keys| - 1]), keys[|keys| - 1];
      gi.Ok? && Unmarked(env.cfg, keys[..|keys| - 1]) &&
      IndexFrom(env, mode, g, keys).value.manifest == Put(gi.value.manifest, last, e) &&
      e.chunkCount == |KeyOutput(env, mode, last).0| && e.embeddingCount == |KeyOutput(env, mode, last).1| &&
      e.indexedAt == env.now && e.source == "s3"
  {
    var init, last := keys[..|keys| - 1], keys[|keys| - 1];
    IndexSnoc(env, mode, g, keys);
    var gi := IndexFrom(env, mode, g, init).value;
    IndexStepFacts(env, mode, gi, last);
    e :| IndexStep(env, mode, gi, last).value.manifest == Put(gi.manifest, last, e) &&
      e.chunkCount == |KeyOutput(env, mode, last).0| && e.embeddingCount == |KeyOutput(env, mode, last).1| &&
      e.indexedAt == env.now && e.source == "s3";
  }

  /** In mode "none" the run succeeds exactly when the bucket holds every key, and it
      touches neither the files nor the manifest. */
  lemma {:induction false} StreamingTouchesNothing(env: Env, g: Gathered, keys: seq<string>)
    requires Wf(g.manifest)
    ensures IndexFrom(env, "none", g, keys).Ok? <==> forall k :: k in keys ==> k in env.bucket
    ensures IndexFrom(env, "none", g, keys).Ok? ==>
      IndexFrom(env, "none", g, keys).value.manifest == g.manifest &&
      IndexFrom(env, "none", g, keys).value.files == g.files
  {
    if keys != [] {
      var init, last := keys[..|keys| - 1], keys[|keys| - 1];
      assert forall k :: k in keys <==> k in init || k == last by {
        assert keys == init + [last];
      }
      StreamingTouchesNothing(env, g, init);
      if IndexFrom(env, "none", g, init).Ok? && IndexFrom(env, "none", g, keys).Ok? {
        IndexStepFacts(env, "none", IndexFrom(env, "none", g, init).value, last);
      }
    }
  }

  /** In ephemeral mode on S3 the per-file worker deletes the cached copy before the result loop
      hashes it, so a run with at least one key always fails on the first key: with
      FileNotFoundError, or with the missing object's error when it cannot be downloaded. */
  lemma EphemeralRunFails(env: Env, mode: string, g: Gathered, keys: seq<string>)
    requires Wf(g.manifest) && env.cfg.useS3 && mode != "none"
    requires EffectiveCacheMode(env.cfg, Some(mode)) == "ephemeral"
    requires keys != [] && !Contains(CachePath(env.cfg, keys[0]), EphemeralSuffix)
    ensures IndexFrom(env, mode, g, keys) ==
      if CachePath(env.cfg, keys[0]) in g.files || keys[0] in env.bucket
      then Err(FileNotFound(CachePath(env.cfg, keys[0])))
      else Err(NoSuchKey(keys[0]))
  {
    var key := keys[0];
    assert keys[..1][..0] == [];
    assert IndexFrom(env, mode, g, keys[..1]) == IndexStep(env, mode, g, key);
    ReplaceAbsent(CachePath(env.cfg, key), EphemeralSuffix, "");
    if DownloadResult(env.cfg, env.bucket, g.files, key, Some(mode)).Ok? {
      DownloadStep(env, g.files, key, mode);
    }
    IndexErrorSticks(env, mode, g, keys[..1], keys[1..]);
    assert keys[..1] + keys[1..] == keys;
  }

  /** Only keys of the index run gain a manifest entry. */
  lemma {:induction false} IndexManifestKeys(env: Env, mode: string, g: Gathered, keys: seq<string>)
    requires Wf(g.manifest)
    requires IndexFrom(env, mode, g, keys).Ok?
    ensures forall k :: k in IndexFrom(env, mode, g, keys).value.manifest.entries ==>
      k in g.manifest.entries || k in keys
  {
    if keys != [] {
      SnocMembers(keys);
      IndexLastKeys(env, mode, g, keys);
      IndexManifestKeys(env, mode, g, keys[..|keys| - 1]);
    }
  }

  /** The last step of a successful run adds no manifest key but the last key. */
  lemma IndexLastKeys(env: Env, mode: string, g: Gathered, keys: seq<string>)
    requires Wf(g.manifest) && keys != []
    requires IndexFrom(env, mode, g, keys).Ok?
    ensures var gi := IndexFrom(env, mode, g, keys[..|keys| - 1]);
      gi.Ok? && forall k :: k in IndexFrom(env, mode, g, keys).value.manifest.entries ==>
        k in gi.value.manifest.entries || k == keys[|keys| - 1]
  {
    assert IndexFrom(env, mode, g, keys[..|keys| - 1]).Ok?;
    IndexStepKeys(env, mode, IndexFrom(env, mode, g, keys[..|keys| - 1]).value, keys[|keys| - 1]);
  }

  /** One step adds no manifest key but its own. */
  lemma IndexStepKeys(env: Env, mode: string, g: Gathered, key: string)
    requires Wf(g.manifest) && IndexStep(env, mode, g, key).Ok?
    ensures forall k :: k in IndexStep(env, mode, g, key).value.manifest.entries ==> k in g.manifest.entries || k == key
  {
  }

  /** Only keys of the listing are selected. */
  lemma {:induction false} SelectedFromKeys(env: Env, manifest: Dict, force: bool, mode: string, s: Selection,
                                            keys: seq<string>)
    requires SelectFrom(env, manifest, force, mode, s, keys).Ok?
    ensures forall k :: k in SelectFrom(env, manifest, force, mode, s, keys).value.keys ==> k in s.keys || k in keys
  {
    if keys != [] {
      var init, last := keys[..|keys| - 1], keys[|keys| - 1];
      assert keys == init + [last];
      SelectedFromKeys(env, manifest, force, mode, s, init);
    }
  }

  // ---------------------------------------------------------------------------------
  // finalize_index

  /** Every row has the first row's width. */
  predicate Rectangular(embeddings: seq<Vector>) {
    forall i :: 0 <= i < |embeddings| ==> |embeddings[i]| == |embeddings[0]|
  }

  /** `finalize_index`: with nothing gathered there is no index and nothing is written;
      otherwise the store is built from the embeddings, the chunks as its texts, and saved. */
  method FinalizeIndex(disk: Disk, chunks: seq<string>, embeddings: seq<Vector>, indexPath: string)
      returns (r: Result<Option<FaissIndexer.FaissStore>>)
    modifies disk
    ensures chunks == [] || embeddings == [] ==> r == Ok(None)
    ensures chunks != [] && embeddings != [] ==> (r.Ok? <==> Rectangular(embeddings))
    ensures r.Ok? && r.value.None? ==> chunks == [] || embeddings == []
    ensures r.Err? ==> r.error == ValueError
    ensures r.Ok? && r.value.Some? ==> (fresh(r.value.value) && chunks != [] && embeddings != [] &&
      r.value.value.index == IndexBlob(|embeddings[0]|, embeddings) && r.value.value.metadata == chunks &&
      disk.indexFiles == old(disk.indexFiles)[FaissIndexer.IndexFilePaths(indexPath).0 := r.value.value.index] &&
      disk.npyFiles == old(disk.npyFiles)[FaissIndexer.IndexFilePaths(indexPath).1 := chunks])
    ensures !(r.Ok? && r.value.Some?) ==> disk.indexFiles == old(disk.indexFiles) && disk.npyFiles == old(disk.npyFiles)
    ensures disk.files == old(disk.files)
  {
    if chunks == [] || embeddings == [] {
      return Ok(None);
    }
    var built := FaissIndexer.BuildFaissIndex(embeddings, chunks);
    if built.Err? {
      return Err(built.error);
    }
    var store := built.value;
    FaissIndexer.SaveFaissIndex(disk, store, indexPath);
    return Ok(Some(store));
  }

  // ---------------------------------------------------------------------------------
  // build_global_index

  /** The saved index is reused when its path exists; otherwise there is no index. */
  method ReuseSavedIndex(disk: Disk, indexPath: string) returns (r: Result<Option<FaissIndexer.FaissStore>>)
    ensures r.Ok? ==> (r.value.None? <==> !disk.Exists(indexPath))
    ensures r.Err? ==> disk.Exists(indexPath) && r.error.FileNotFound?
    ensures r.Ok? && r.value.Some? ==> (fresh(r.value.value) && r.value.value.dim == FaissIndexer.LoadedDim &&
      FaissIndexer.IndexFilePaths(indexPath).0 in disk.indexFiles &&
      FaissIndexer.IndexFilePaths(indexPath).1 in disk.npyFiles &&
      r.value.value.index == disk.indexFiles[FaissIndexer.IndexFilePaths(indexPath).0] &&
      r.value.value.metadata == disk.npyFiles[FaissIndexer.IndexFilePaths(indexPath).1])
  {
    if disk.Exists(indexPath) {
      var loadedIndex := FaissIndexer.LoadFaissIndex(disk, indexPath);
      if loadedIndex.Err? {
        return Err(loadedIndex.error);
      }
      return Ok(Some(loadedIndex.value));
    }
    return Ok(None);
  }

  /** `index_files` over the selected keys followed by `finalize_index`: the new index
      holds exactly the selected keys' chunks and embeddings, in key order. */
  method IndexAndFinalize(disk: Disk, mf: ManifestFile, env: Env, mode: string, keysToIndex: seq<string>,
                          indexPath: string) returns (r: Result<Option<FaissIndexer.FaissStore>>)
    requires mf.Valid()
    modifies disk, mf
    ensures mf.Valid()
    ensures r.Ok? ==> forall k :: k in mf.Loaded().entries ==> k in old(mf.Loaded()).entries || k in keysToIndex
    ensures r.Ok? && keysToIndex == [] ==> (r.value.None? &&
      disk.indexFiles == old(disk.indexFiles) && disk.npyFiles == old(disk.npyFiles))
    ensures r.Ok? && (mode == "none" || Unmarked(env.cfg, keysToIndex)) ==> (
      (r.value.Some? <==> AllChunks(env, mode, keysToIndex) != [] && AllEmbeddings(env, mode, keysToIndex) != []) &&
      (r.value.Some? ==> (fresh(r.value.value) &&
        r.value.value.metadata == AllChunks(env, mode, keysToIndex) &&
        r.value.value.index.rows == AllEmbeddings(env, mode, keysToIndex) &&
        disk.npyFiles == old(disk.npyFiles)[FaissIndexer.IndexFilePaths(indexPath).1 := r.value.value.metadata] &&
        disk.indexFiles == old(disk.indexFiles)[FaissIndexer.IndexFilePaths(indexPath).0 := r.value.value.index])))
  {
    ghost var g0 := Gathered([], [], disk.files, mf.Loaded());
    var gathered := IndexFiles(disk, mf, env, keysToIndex, mode);
    if gathered.Err? {
      return Err(gathered.error);
    }
    var (chunks, embeddings) := gathered.value;
    IndexedSummary(env, mode, g0, keysToIndex, Gathered(chunks, embeddings, disk.files, mf.Loaded()));
    r := FinalizeIndex(disk, chunks, embeddings, indexPath);
  }

  /** What a successful `index_files` run leaves: only old or indexed keys in the
      manifest, and, with unmarked paths, every key's chunks and embeddings in key order. */
  lemma IndexedSummary(env: Env, mode: string, g0: Gathered, keys: seq<string>, g: Gathered)
    requires g0.chunks == [] && g0.embeddings == [] && Wf(g0.manifest)
    requires IndexFrom(env, mode, g0, keys) == Ok(g)
    ensures forall k :: k in g.manifest.entries ==> k in g0.manifest.entries || k in keys
    ensures mode == "none" || Unmarked(env.cfg, keys) ==>
      g.chunks == AllChunks(env, mode, keys) && g.embeddings == AllEmbeddings(env, mode, keys)
  {
    IndexManifestKeys(env, mode, g0, keys);
    if mode == "none" || Unmarked(env.cfg, keys) {
      IndexedInKeyOrder(env, mode, g0, keys);
    }
  }

  /** `build_global_index`: lists the PDFs, prunes the manifest of keys no longer listed
      and deletes their cached copies, selects the keys to index, and either reuses the
      saved index (nothing selected, nothing pruned) or indexes the selected keys and
      builds and saves a new index from them alone. The ghost outputs are the pruned and
      the selected keys. */
  method BuildGlobalIndex(disk: Disk, mf: ManifestFile, env: Env, force: bool, cacheMode: Option<string>,
                          indexPath: string)
      returns (r: Result<Option<FaissIndexer.FaissStore>>, ghost pruned: seq<string>, ghost selected: seq<string>)
    requires mf.Valid()
    modifies disk, mf
    ensures mf.Valid()
    ensures PdfListing(env) == [] ==> (r == Ok(None) && disk.files == old(disk.files) &&
      mf.present == old(mf.present) && mf.parses == old(mf.parses) && mf.stored == old(mf.stored))
    ensures PdfListing(env) != [] ==> pruned == StaleKeys(old(mf.Loaded()), PdfListing(env))
    ensures r.Ok? && PdfListing(env) != [] ==>
      var mode := EffectiveCacheMode(env.cfg, cacheMode);
      var sel := SelectFrom(env, PopAll(old(mf.Loaded()), pruned), force, mode,
                            Selection([], old(disk.files) - CachePaths(env.cfg, pruned)), PdfListing(env));
      sel.Ok? && sel.value.keys == selected
    ensures r.Ok? && PdfListing(env) != [] ==> forall k :: k in mf.Loaded().entries ==> k in PdfListing(env)
    ensures r.Ok? && PdfListing(env) != [] && selected == [] && pruned == [] ==> (
      (r.value.None? <==> !disk.Exists(indexPath)) &&
      (r.value.Some? ==> (fresh(r.value.value) && r.value.value.dim == FaissIndexer.LoadedDim &&
        FaissIndexer.IndexFilePaths(indexPath).0 in disk.indexFiles &&
        FaissIndexer.IndexFilePaths(indexPath).1 in disk.npyFiles &&
        r.value.value.index == disk.indexFiles[FaissIndexer.IndexFilePaths(indexPath).0] &&
        r.value.value.metadata == disk.npyFiles[FaissIndexer.IndexFilePaths(indexPath).1])))
    ensures r.Ok? && selected == [] && pruned != [] ==> (r.value.None? &&
      disk.indexFiles == old(disk.indexFiles) && disk.npyFiles == old(disk.npyFiles))
    ensures r.Ok? && selected != [] && (EffectiveCacheMode(env.cfg, cacheMode) == "none" || Unmarked(env.cfg, selected)) ==>
      var mode := EffectiveCacheMode(env.cfg, cacheMode);
      (r.value.Some? <==> AllChunks(env, mode, selected) != [] && AllEmbeddings(env, mode, selected) != []) &&
      (r.value.Some? ==> (fresh(r.value.value) &&
        r.value.value.metadata == AllChunks(env, mode, selected) &&
        r.value.value.index.rows == AllEmbeddings(env, mode, selected) &&
        disk.npyFiles == old(disk.npyFiles)[FaissIndexer.IndexFilePaths(indexPath).1 := r.value.value.metadata] &&
        disk.indexFiles == old(disk.indexFiles)[FaissIndexer.IndexFilePaths(indexPath).0 := r.value.value.index]))
  {
    var mode := EffectiveCacheMode(env.cfg, cacheMode);
    pruned, selected := [], [];
    var allKeys := ListPdfFiles(env);
    if allKeys == [] {
      return Ok(None), pruned, selected;
    }
    var originalManifest := mf.Load();  // read and left unused, as in the source
    ghost var loaded := mf.Loaded();
    var manifest, prunedKeys := mf.Prune(allKeys);
    pruned := prunedKeys;
    PruneSpec(loaded, allKeys);
    var wasPruned := |prunedKeys| > 0;
    CleanupStaleCache(disk, env.cfg, prunedKeys);
    r, selected := SelectThenIndex(disk, mf, env, force, mode, allKeys, manifest, wasPruned, indexPath);
  }

  /** The part of `build_global_index` after the prune: selects the keys to index and
      either reuses the saved index (nothing selected, nothing pruned) or indexes the
      selected keys. The ghost output is the selected keys. */
  method SelectThenIndex(disk: Disk, mf: ManifestFile, env: Env, force: bool, mode: string, allKeys: seq<string>,
                         manifest: Dict, wasPruned: bool, indexPath: string)
      returns (r: Result<Option<FaissIndexer.FaissStore>>, ghost selected: seq<string>)
    requires mf.Valid()
    requires forall k :: k in mf.Loaded().entries ==> k in allKeys
    modifies disk, mf
    ensures mf.Valid()
    ensures r.Ok? ==> var sel := SelectFrom(env, manifest, force, mode, Selection([], old(disk.files)), allKeys);
      sel.Ok? && sel.value.keys == selected
    ensures r.Ok? ==> forall k :: k in mf.Loaded().entries ==> k in allKeys
    ensures r.Ok? && selected == [] && !wasPruned ==> (
      (r.value.None? <==> !disk.Exists(indexPath)) &&
      (r.value.Some? ==> (fresh(r.value.value) && r.value.value.dim == FaissIndexer.LoadedDim &&
        FaissIndexer.IndexFilePaths(indexPath).0 in disk.indexFiles &&
        FaissIndexer.IndexFilePaths(indexPath).1 in disk.npyFiles &&
        r.value.value.index == disk.indexFiles[FaissIndexer.IndexFilePaths(indexPath).0] &&
        r.value.value.metadata == disk.npyFiles[FaissIndexer.IndexFilePaths(indexPath).1])))
    ensures r.Ok? && selected == [] && wasPruned ==> (r.value.None? &&
      disk.indexFiles == old(disk.indexFiles) && disk.npyFiles == old(disk.npyFiles))
    ensures r.Ok? && selected != [] && (mode == "none" || Unmarked(env.cfg, selected)) ==>
      (r.value.Some? <==> AllChunks(env, mode, selected) != [] && AllEmbeddings(env, mode, selected) != []) &&
      (r.value.Some? ==> (fresh(r.value.value) &&
        r.value.value.metadata == AllChunks(env, mode, selected) &&
        r.value.value.index.rows == AllEmbeddings(env, mode, selected) &&
        disk.npyFiles == old(disk.npyFiles)[FaissIndexer.IndexFilePaths(indexPath).1 := r.value.value.metadata] &&
        disk.indexFiles == old(disk.indexFiles)[FaissIndexer.IndexFilePaths(indexPath).0 := r.value.value.index]))
  {
    selected := [];
    ghost var filesBefore := disk.files;
    var keys := GetKeysToIndex(disk, env, allKeys, manifest, force, mode);
    if keys.Err? {
      return Err(keys.error), selected;
    }
    selected := keys.value;
    SelectedFromKeys(env, manifest, force, mode, Selection([], filesBefore), allKeys);
    var keysToIndex := keys.value;
    if keysToIndex == [] && !wasPruned {
      r := ReuseSavedIndex(disk, indexPath);
      return r, selected;
    }
    r := IndexAndFinalize(disk, mf, env, mode, keysToIndex, indexPath);
  }

  // ---------------------------------------------------------------------------------
  // rebuild_index

  /** `set(exclude_keys or [])` */
  function Excluded(excludeKeys: Option<seq<string>>): (s: set<string>)
    ensures forall k :: k in s <==> excludeKeys.Some? && k in excludeKeys.value
  {
    if excludeKeys.Some? then set k | k in excludeKeys.value else {}
  }

  /** The listed keys that are not excluded, in listing order. */
  function Unexcluded(keys: seq<string>, exclude: set<string>): (r: seq<string>)
    ensures forall k :: k in r <==> k in keys && k !in exclude
    ensures |r| <= |keys|
  {
    if keys == [] then []
    else
      var last := keys[|keys| - 1];
      Unexcluded(keys[..|keys| - 1], exclude) + (if last !in exclude then [last] else [])
  }

  /** The per-key results gathered by the download loop, and the files as they stand. */
  datatype Fetched = Fetched(outs: seq<(seq<string>, seq<Vector>)>, files: map<string, seq<byte>>)

  /** One iteration of the download loop: download, then process the unmarked path. */
  function FetchStep(env: Env, mode: string, f: Fetched, key: string): (r: Result<Fetched>)
    ensures r.Ok? ==> |r.value.outs| == |f.outs| + 1
  {
    match DownloadResult(env.cfg, env.bucket, f.files, key, Some(mode))
    case Err(e) => Err(e)
    case Ok(localPath) =>
      Ok(Fetched(f.outs + [ProcessFile(Path(Replace(localPath, EphemeralSuffix, "")), env.stages)],
                 FilesAfterDownload(env.cfg, env.bucket, f.files, key, Some(mode))))
  }

  /** The download loop over `keys`; the first exception ends it. */
  function FetchAll(env: Env, mode: string, f: Fetched, keys: seq<string>): (r: Result<Fetched>)
    ensures r.Ok? ==> |r.value.outs| == |f.outs| + |keys|
  {
    if keys == [] then Ok(f)
    else match FetchAll(env, mode, f, keys[..|keys| - 1])
      case Err(e) => Err(e)
      case Ok(f') => FetchStep(env, mode, f', keys[|keys| - 1])
  }

  lemma {:induction false} FetchErrorSticks(env: Env, mode: string, f: Fetched, a: seq<string>, b: seq<string>)
    requires FetchAll(env, mode, f, a).Err?
    ensures FetchAll(env, mode, f, a + b) == FetchAll(env, mode, f, a)
    decreases |b|
  {
    if b == [] {
      assert a + b == a;
    } else {
      assert (a + b)[..|a + b| - 1] == a + b[..|b| - 1];
      FetchErrorSticks(env, mode, f, a, b[..|b| - 1]);
    }
  }

  /** One iteration of the result loop of `rebuild_index`: the key's results are appended,
      its manifest entry rewritten, and `cleanup_if_ephemeral` is called on its unmarked
      cache path. */
  function RebuildStep(env: Env, g: Gathered, key: string, out: (seq<string>, seq<Vector>)): (r: Result<Gathered>)
    requires Wf(g.manifest)
    ensures r.Ok? ==> Wf(r.value.manifest)
  {
    match RecordEntry(env, g.manifest, g.files, key, out)
    case Err(e) => Err(e)
    case Ok(manifest) =>
      Ok(Gathered(g.chunks + out.0, g.embeddings + out.1, AfterCleanup(g.files, CachePath(env.cfg, key)), manifest))
  }

  /** The result loop of `rebuild_index` over `keys`, paired with their results. */
  function RecordAll(env: Env, g: Gathered, keys: seq<string>, outs: seq<(seq<string>, seq<Vector>)>): (r: Result<Gathered>)
    requires Wf(g.manifest) && |outs| == |keys|
    ensures r.Ok? ==> Wf(r.value.manifest)
  {
    if keys == [] then Ok(g)
    else match RecordAll(env, g, keys[..|keys| - 1], outs[..|outs| - 1])
      case Err(e) => Err(e)
      case Ok(g') => RebuildStep(env, g', keys[|keys| - 1], outs[|outs| - 1])
  }

  lemma {:induction false} RecordErrorSticks(env: Env, g: Gathered, keys: seq<string>,
                                             outs: seq<(seq<string>, seq<Vector>)>, n: nat)
    requires Wf(g.manifest) && |outs| == |keys| && n <= |keys|
    requires RecordAll(env, g, keys[..n], outs[..n]).Err?
    ensures RecordAll(env, g, keys, outs) == RecordAll(env, g, keys[..n], outs[..n])
    decreases |keys| - n
  {
    if n < |keys| {
      PrefixOfPrefix(keys, n + 1, n);
      PrefixOfPrefix(outs, n + 1, n);
      RecordErrorStep(env, g, keys[..n + 1], outs[..n + 1]);
      RecordErrorSticks(env, g, keys, outs, n + 1);
    } else {
      PrefixOfPrefix(keys, n, n);
      PrefixOfPrefix(outs, n, n);
    }
  }

  /** An error before the last key is the result of the whole loop. */
  lemma RecordErrorStep(env: Env, g: Gathered, keys: seq<string>, outs: seq<(seq<string>, seq<Vector>)>)
    requires Wf(g.manifest) && |outs| == |keys| && keys != []
    requires RecordAll(env, g, keys[..|keys| - 1], outs[..|outs| - 1]).Err?
    ensures RecordAll(env, g, keys, outs) == RecordAll(env, g, keys[..|keys| - 1], outs[..|outs| - 1])
  {
  }

  /** Both loops of `rebuild_index`: every key is downloaded and processed first, then
      the results are recorded in key order. */
  function RebuildGather(env: Env, mode: string, files: map<string, seq<byte>>, manifest: Dict,
                         keys: seq<string>): (r: Result<Gathered>)
    requires Wf(manifest)
    ensures r.Ok? ==> Wf(r.value.manifest)
  {
    match FetchAll(env, mode, Fetched([], files), keys)
    case Err(e) => Err(e)
    case Ok(f) => RecordAll(env, Gathered([], [], f.files, manifest), keys, f.outs)
  }

  /** `rebuild_index`: indexes every listed key that is not excluded, whether or not it
      changed, and builds and saves an index from them. The ghost output is the keys
      indexed. */
  method RebuildIndex(disk: Disk, mf: ManifestFile, env: Env, excludeKeys: Option<seq<string>>,
                      cacheMode: Option<string>, indexPath: string)
      returns (r: Result<Option<FaissIndexer.FaissStore>>, ghost keys: seq<string>)
    requires mf.Valid()
    modifies disk, mf
    ensures mf.Valid()
    ensures keys == Unexcluded(PdfListing(env), Excluded(excludeKeys))
    ensures keys == [] ==> (r == Ok(None) && disk.files == old(disk.files) &&
      mf.present == old(mf.present) && mf.parses == old(mf.parses) && mf.stored == old(mf.stored))
    ensures keys != [] ==>
      var spec := RebuildGather(env, EffectiveCacheMode(env.cfg, cacheMode), old(disk.files), old(mf.Loaded()), keys);
      (spec.Err? ==> r == Err(spec.error)) &&
      (spec.Ok? ==> (disk.files == spec.value.files && mf.Loaded() == spec.value.manifest &&
        (spec.value.chunks == [] || spec.value.embeddings == [] ==> r == Ok(None)) &&
        (spec.value.chunks != [] && spec.value.embeddings != [] ==> (r.Ok? <==> Rectangular(spec.value.embeddings))) &&
        (r.Ok? && r.value.Some? ==> (fresh(r.value.value) &&
          r.value.value.metadata == spec.value.chunks && r.value.value.index.rows == spec.value.embeddings &&
          disk.npyFiles == old(disk.npyFiles)[FaissIndexer.IndexFilePaths(indexPath).1 := r.value.value.metadata] &&
          disk.indexFiles == old(disk.indexFiles)[FaissIndexer.IndexFilePaths(indexPath).0 := r.value.value.index]))))
  {
    var mode := EffectiveCacheMode(env.cfg, cacheMode);
    var exclude := Excluded(excludeKeys);
    var allKeys := ListPdfFiles(env);
    var keysToIndex := Unexcluded(allKeys, exclude);
    keys := keysToIndex;
    if keysToIndex == [] {
      return Ok(None), keys;
    }
    var fetched := FetchResults(disk, env, mode, keysToIndex);
    if fetched.Err? {
      return Err(fetched.error), keys;
    }
    var gathered := RecordResults(disk, mf, env, keysToIndex, fetched.value);
    if gathered.Err? {
      return Err(gathered.error), keys;
    }
    var (chunks, embeddings) := gathered.value;
    r := FinalizeIndex(disk, chunks, embeddings, indexPath);
  }

  /** The download loop of `rebuild_index`: every key is downloaded and submitted for
      processing before any result is consumed. */
  method FetchResults(disk: Disk, env: Env, mode: string, keys: seq<string>)
      returns (r: Result<seq<(seq<string>, seq<Vector>)>>)
    modifies disk
    ensures var spec := FetchAll(env, mode, Fetched([], old(disk.files)), keys);
      (spec.Err? ==> r == Err(spec.error)) &&
      (spec.Ok? ==> r == Ok(spec.value.outs) && disk.files == spec.value.files)
    ensures disk.indexFiles == old(disk.indexFiles) && disk.npyFiles == old(disk.npyFiles)
  {
    var outs: seq<(seq<string>, seq<Vector>)> := [];
    ghost var f0 := Fetched([], disk.files);
    for i := 0 to |keys|
      invariant FetchAll(env, mode, f0, keys[..i]) == Ok(Fetched(outs, disk.files))
      invariant disk.indexFiles == old(disk.indexFiles) && disk.npyFiles == old(disk.npyFiles)
    {
      assert keys[..i + 1][..i] == keys[..i];
      assert keys[..i + 1] + keys[i + 1..] == keys;
      var localPath := DownloadPdf(disk, env.bucket, env.cfg, keys[i], Some(mode));
      if localPath.Err? {
        FetchErrorSticks(env, mode, f0, keys[..i + 1], keys[i + 1..]);
        return Err(localPath.error);
      }
      var actualPath := Replace(localPath.value, EphemeralSuffix, "");
      outs := outs + [ProcessFile(Path(actualPath), env.stages)];
    }
    assert keys[..|keys|] == keys;
    return Ok(outs);
  }

  /** The result loop of `rebuild_index`. */
  method RecordResults(disk: Disk, mf: ManifestFile, env: Env, keys: seq<string>,
                       outs: seq<(seq<string>, seq<Vector>)>) returns (r: Result<(seq<string>, seq<Vector>)>)
    requires mf.Valid() && |outs| == |keys|
    modifies disk, mf
    ensures mf.Valid()
    ensures var spec := RecordAll(env, Gathered([], [], old(disk.files), old(mf.Loaded())), keys, outs);
      (spec.Err? ==> r == Err(spec.error)) &&
      (spec.Ok? ==> r == Ok((spec.value.chunks, spec.value.embeddings)) &&
                    disk.files == spec.value.files && mf.Loaded() == spec.value.manifest)
    ensures disk.indexFiles == old(disk.indexFiles) && disk.npyFiles == old(disk.npyFiles)
  {
    var allChunks: seq<string> := [];
    var allEmbeddings: seq<Vector> := [];
    ghost var g0 := Gathered([], [], disk.files, mf.Loaded());
    for i := 0 to |keys|
      invariant mf.Valid()
      invariant RecordAll(env, g0, keys[..i], outs[..i]) == Ok(Gathered(allChunks, allEmbeddings, disk.files, mf.Loaded()))
      invariant disk.indexFiles == old(disk.indexFiles) && disk.npyFiles == old(disk.npyFiles)
    {
      assert keys[..i + 1][..i] == keys[..i] && outs[..i + 1][..i] == outs[..i];
      var (chunks, embeddings) := outs[i];
      allChunks := allChunks + chunks;
      allEmbeddings := allEmbeddings + embeddings;
      var localPath := PathJoin(env.cfg.cacheDir, keys[i]);
      var actualPath := Replace(localPath, EphemeralSuffix, "");
      var hashValue := HashFile(disk, actualPath, env.sha);
      if hashValue.Err? {
        RecordErrorSticks(env, g0, keys, outs, i + 1);
        return Err(hashValue.error);
      }
      var size := |disk.files[actualPath]|;
      mf.UpdateEntry(keys[i], hashValue.value, |chunks|, |embeddings|, Some(size), "s3", env.now);
      CleanupIfEphemeral(disk, localPath);
    }
    assert keys[..|keys|] == keys && outs[..|outs|] == outs;
    return Ok((allChunks, allEmbeddings));
  }

  /** One download step outside mode "none" appends what `process_file` makes of the
      key's file. */
  lemma FetchStepOutput(env: Env, mode: string, f: Fetched, key: string)
    requires mode != "none" && !Contains(KeyPath(env.cfg, key), EphemeralSuffix)
    requires FetchStep(env, mode, f, key).Ok?
    ensures FetchStep(env, mode, f, key).value.outs == f.outs + [KeyOutput(env, mode, key)]
  {
    DownloadStep(env, f.files, key, mode);
  }

  /** A successful download loop over `init + [last]` is one over `init` and one step. */
  lemma FetchSnoc(env: Env, mode: string, f: Fetched, keys: seq<string>)
    requires keys != [] && Unmarked(env.cfg, keys)
    requires FetchAll(env, mode, f, keys).Ok?
    ensures FetchAll(env, mode, f, keys[..|keys| - 1]).Ok?
    ensures FetchAll(env, mode, f, keys) == FetchStep(env, mode, FetchAll(env, mode, f, keys[..|keys| - 1]).value, keys[|keys| - 1])
    ensures Unmarked(env.cfg, keys[..|keys| - 1])
    ensures !Contains(KeyPath(env.cfg, keys[|keys| - 1]), EphemeralSuffix)
  {
    assert keys[|keys| - 1] in keys;
    assert forall k :: k in keys[..|keys| - 1] ==> k in keys;
  }

  /** What `process_file` makes of each key, in key order. */
  function Outputs(env: Env, mode: string, keys: seq<string>): (r: seq<(seq<string>, seq<Vector>)>)
    ensures |r| == |keys|
  {
    if keys == [] then [] else Outputs(env, mode, keys[..|keys| - 1]) + [KeyOutput(env, mode, keys[|keys| - 1])]
  }

  /** Outside mode "none" the download loop yields, for each key in order, what
      `process_file` makes of the key's file. */
  lemma {:induction false} FetchOutputs(env: Env, mode: string, f: Fetched, keys: seq<string>)
    requires mode != "none" && Unmarked(env.cfg, keys)
    requires FetchAll(env, mode, f, keys).Ok?
    ensures FetchAll(env, mode, f, keys).value.outs == f.outs + Outputs(env, mode, keys)
  {
    if keys == [] {
      assert f.outs + [] == f.outs;
    } else {
      var init, last := keys[..|keys| - 1], keys[|keys| - 1];
      FetchSnoc(env, mode, f, keys);
      FetchOutputs(env, mode, f, init);
      FetchStepOutput(env, mode, FetchAll(env, mode, f, init).value, last);
      ConcatSnoc(f.outs, Outputs(env, mode, init), [KeyOutput(env, mode, last)]);
    }
  }

  /** The result loop appends the given results in key order. */
  lemma {:induction false} RecordInKeyOrder(env: Env, mode: string, g: Gathered, keys: seq<string>,
                                            outs: seq<(seq<string>, seq<Vector>)>)
    requires Wf(g.manifest) && |outs| == |keys|
    requires outs == Outputs(env, mode, keys)
    requires RecordAll(env, g, keys, outs).Ok?
    ensures RecordAll(env, g, keys, outs).value.chunks == g.chunks + AllChunks(env, mode, keys)
    ensures RecordAll(env, g, keys, outs).value.embeddings == g.embeddings + AllEmbeddings(env, mode, keys)
  {
    if keys == [] {
      assert g.chunks + [] == g.chunks && g.embeddings + [] == g.embeddings;
    } else {
      var n := |keys| - 1;
      assert RecordAll(env, g, keys[..n], outs[..n]).Ok?;
      RecordInKeyOrder(env, mode, g, keys[..n], outs[..n]);
      var out := KeyOutput(env, mode, keys[n]);
      ConcatSnoc(g.chunks, AllChunks(env, mode, keys[..n]), out.0);
      ConcatSnoc(g.embeddings, AllEmbeddings(env, mode, keys[..n]), out.1);
    }
  }

  /** Outside mode "none" a rebuild gathers every key's chunks and embeddings in listing
      order, exactly as an index run over the same keys would. */
  lemma RebuildInKeyOrder(env: Env, mode: string, files: map<string, seq<byte>>, manifest: Dict, keys: seq<string>)
    requires Wf(manifest) && mode != "none" && Unmarked(env.cfg, keys)
    requires RebuildGather(env, mode, files, manifest, keys).Ok?
    ensures RebuildGather(env, mode, files, manifest, keys).value.chunks == AllChunks(env, mode, keys)
    ensures RebuildGather(env, mode, files, manifest, keys).value.embeddings == AllEmbeddings(env, mode, keys)
  {
    var f := FetchAll(env, mode, Fetched([], files), keys).value;
    FetchOutputs(env, mode, Fetched([], files), keys);
    assert [] + Outputs(env, mode, keys) == Outputs(env, mode, keys);
    RecordInKeyOrder(env, mode, Gathered([], [], f.files, manifest), keys, f.outs);
  }

  /** The download loop deletes nothing, and on S3 leaves every key's cached copy. */
  lemma {:induction false} FetchKeepsCopies(env: Env, mode: string, f: Fetched, keys: seq<string>)
    requires FetchAll(env, mode, f, keys).Ok?
    ensures forall p :: p in f.files ==> p in FetchAll(env, mode, f, keys).value.files
    ensures env.cfg.useS3 ==> forall k :: k in keys ==> CachePath(env.cfg, k) in FetchAll(env, mode, f, keys).value.files
  {
    if keys != [] {
      var init, last := keys[..|keys| - 1], keys[|keys| - 1];
      assert keys == init + [last];
      FetchKeepsCopies(env, mode, f, init);
      var f1 := FetchAll(env, mode, f, init).value;
      if env.cfg.useS3 {
        DownloadedFileIsCached(env.cfg, env.bucket, f1.files, last, Some(mode));
      }
    }
  }

  /** The result loop of a rebuild deletes nothing: it cleans up the unmarked cache path,
      which never names an ephemeral copy. */
  lemma {:induction false} RecordDeletesNothing(env: Env, g: Gathered, keys: seq<string>,
                                                outs: seq<(seq<string>, seq<Vector>)>)
    requires Wf(g.manifest) && |outs| == |keys|
    requires forall k :: k in keys ==> !Contains(CachePath(env.cfg, k), EphemeralSuffix)
    requires RecordAll(env, g, keys, outs).Ok?
    ensures RecordAll(env, g, keys, outs).value.files == g.files
  {
    if keys != [] {
      var n := |keys| - 1;
      assert forall k :: k in keys[..n] ==> k in keys;
      assert keys[n] in keys;
      assert RecordAll(env, g, keys[..n], outs[..n]).Ok?;
      RecordDeletesNothing(env, g, keys[..n], outs[..n]);
      CleanupOfDownloadedPath(g.files, CachePath(env.cfg, keys[n]));
    }
  }

  /** On S3 a rebuild leaves every key's cached copy on disk, in ephemeral mode as well:
      unlike an index run, it never deletes what it downloaded. */
  lemma RebuildKeepsCopies(env: Env, mode: string, files: map<string, seq<byte>>, manifest: Dict, keys: seq<string>)
    requires Wf(manifest) && env.cfg.useS3
    requires forall k :: k in keys ==> !Contains(CachePath(env.cfg, k), EphemeralSuffix)
    requires RebuildGather(env, mode, files, manifest, keys).Ok?
    ensures forall k :: k in keys ==> CachePath(env.cfg, k) in RebuildGather(env, mode, files, manifest, keys).value.files
    ensures forall p :: p in files ==> p in RebuildGather(env, mode, files, manifest, keys).value.files
  {
    var f := FetchAll(env, mode, Fetched([], files), keys).value;
    FetchKeepsCopies(env, mode, Fetched([], files), keys);
    RecordDeletesNothing(env, Gathered([], [], f.files, manifest), keys, f.outs);
  }

  /** Without S3, outside mode "none", the result loop of `index_files` still hashes the
      key's path under CACHE_DIR: a run whose first key has no copy there fails with
      FileNotFoundError although the key's own file was processed. */
  lemma LocalRunNeedsCachedCopy(env: Env, mode: string, g: Gathered, keys: seq<string>)
    requires Wf(g.manifest) && !env.cfg.useS3 && mode != "none" && keys != []
    requires !Contains(CachePath(env.cfg, keys[0]), EphemeralSuffix)
    requires !Contains(KeyPath(env.cfg, keys[0]), EphemeralSuffix)
    requires CachePath(env.cfg, keys[0]) !in g.files
    ensures IndexFrom(env, mode, g, keys) == Err(FileNotFound(CachePath(env.cfg, keys[0])))
  {
    var key := keys[0];
    assert keys[..1][..0] == [];
    assert IndexFrom(env, mode, g, keys[..1]) == IndexStep(env, mode, g, key);
    ReplaceAbsent(CachePath(env.cfg, key), EphemeralSuffix, "");
    DownloadStep(env, g.files, key, mode);
    IndexErrorSticks(env, mode, g, keys[..1], keys[1..]);
    assert keys[..1] + keys[1..] == keys;
  }

  /** `rebuild_index` has no streaming path: on S3 in mode "none" the first download
      raises NotImplementedError. */
  lemma RebuildCannotStream(env: Env, files: map<string, seq<byte>>, manifest: Dict, keys: seq<string>)
    requires Wf(manifest) && env.cfg.useS3 && keys != []
    ensures RebuildGather(env, "none", files, manifest, keys) == Err(NotImplemented)
  {
    var f0 := Fetched([], files);
    assert keys[..1][..0] == [];
    assert FetchAll(env, "none", f0, keys[..1]) == FetchStep(env, "none", f0, keys[0]);
    FetchErrorSticks(env, "none", f0, keys[..1], keys[1..]);
    assert keys[..1] + keys[1..] == keys;
  }
}
