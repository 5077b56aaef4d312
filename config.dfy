/** The worker's fixed configuration. */
module Config {
  /** The current cache generation; bumping it invalidates every older bucket. */
  const CacheName: string := "aether-v2-premium"

  /** The app shell pre-cached at install, relative to the worker's directory. */
  const StaticAssets: seq<string> := ["./", "./index.html", "./vite.svg", "./manifest.json"]

  /** Host-name fragments of the third-party origins served cache-first. */
  const ExternalDomains: seq<string> :=
    ["aistudiocdn.com", "unpkg.com", "cdn.tailwindcss.com", "fonts.googleapis.com", "fonts.gstatic.com"]
}
