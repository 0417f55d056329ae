/** The configuration constants that the `src/` modules import from `src/config.py`. */
module Config {
  /** Pages rendered and sent per PDF when the caller gives no page limit. */
  const DefaultMaxPages: nat := 2
  /** Longest sanitized filename component, in characters. */
  const MaxFilenameLength: nat := 100
  /** Model calls made for one PDF before giving up. */
  const MaxRetries: nat := 3
  /** Minimum spacing between model calls, in seconds. */
  const RateLimitDelaySeconds: nat := 6
  /** Base of the exponential rate-limit backoff, in seconds. */
  const RetryBaseDelay: nat := 60
  /** Glob patterns of the files a batch considers. */
  const PdfPatterns: seq<string> := ["*.pdf", "*.PDF"]
  /** The sentinel the model is told to use for a field it cannot find. */
  const NotFound: string := "Not found"
}
