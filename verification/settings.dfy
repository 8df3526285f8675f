/** The configuration the core reads (backend/main/config.py). Every setting comes from the
    environment once, at import, so the model passes it around as a value. */
module Settings {
  import opened Wrappers

  datatype Config = Config(
    useS3: bool,              // USE_S3
    cacheMode: string,        // CACHE_MODE, already lower-cased: "full", "ephemeral" or "none"
    sampleDir: string,        // SAMPLE_DIR
    cacheDir: string,         // CACHE_DIR
    mergeWindowSize: int,     // MERGE_WINDOW_SIZE
    proximityMerge: bool)     // PROXIMITY_MERGE

  /** The values the configuration takes when the environment sets none of them. */
  const Defaults := Config(false, "full", "sample_pdfs", ".cache", 1, false)

  const TopKFaiss := 40
  const TopNRerank := 10
  /** FAISS_SCORE_THRESHOLD, 0.2 */
  const FaissScoreThreshold: real := 0.2
  const EphemeralSuffix := "::ephemeral"
  const ManifestFileName := "index_manifest.json"

  /** `cache_mode or Config.CACHE_MODE`: a missing or empty argument falls back to the
      configured mode. */
  function EffectiveCacheMode(cfg: Config, cacheMode: Option<string>): string {
    if cacheMode.Some? && cacheMode.value != "" then cacheMode.value else cfg.cacheMode
  }
}
