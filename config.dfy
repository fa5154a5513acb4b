/** The constants of config.py that the core's behaviour depends on. */
module Config {

  /** `IMAGE_EXTENSIONS`: the lower-cased file suffixes that are indexed. */
  const ImageExtensions: set<string> := {".jpg", ".jpeg", ".png"}

  /** `INDEXING_BATCH_SIZE`: images embedded per batch. */
  const IndexingBatchSize: nat := 128

  /** `DEFAULT_SEARCH_LIMIT`: `top_k` when the request does not give one. */
  const DefaultSearchLimit: int := 48

  /** `MAX_SEARCH_LIMIT`: the largest `top_k` handed to the store. */
  const MaxSearchLimit: int := 200
}
