/** The configuration file as the pipeline reads it: a JSON object whose keys
    may each be missing. The accessors apply the same defaults as the
    `config.get(key, default)` calls of threatscrape.py. */
module Settings {
  import opened Wrappers

  datatype Config = Config(
    geminiApiKey: Option<string>,          // "GEMINI_API_KEY"
    googleApiKey: Option<string>,          // "GOOGLE_API_KEY"
    cx: Option<string>,                    // "CX", the search-engine identifier
    excludedSites: Option<seq<string>>,    // "EXCLUDED_SITES"
    intextKeywords: Option<seq<string>>,   // "INTEXT_KEYWORDS"
    totalResults: Option<int>)             // "TOTAL_RESULTS"

  /** The page cap used when "TOTAL_RESULTS" is absent. */
  const DefaultTotalResults := 50

  /** Python truthiness of an optional string: present and not empty. */
  predicate Truthy(v: Option<string>) {
    v.Some? && v.value != ""
  }

  function ExcludedSites(c: Config): seq<string> {
    c.excludedSites.GetOr([])
  }

  function IntextKeywords(c: Config): seq<string> {
    c.intextKeywords.GetOr([])
  }

  function TotalResults(c: Config): int {
    c.totalResults.GetOr(DefaultTotalResults)
  }
}
