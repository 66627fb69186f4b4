/** One run of the tool (`main`): check the keyword, load the configuration,
    expand the keyword, build the query, page through the search, and write
    the two result files when there is anything to write. */
module Pipeline {
  import opened Wrappers
  import opened PyStr
  import opened Settings
  import opened Keywords
  import opened Query
  import opened Search
  import opened Output

  /** How a run ends. */
  datatype RunOutcome =
    | Exited(status: int)          // sys.exit: empty keyword or unreadable configuration
    | NoResults(query: string, sent: seq<SearchRequest>)
    | Saved(query: string, sent: seq<SearchRequest>,
            jsonFile: string, jsonItems: seq<Item>,
            csvFile: string, csvRows: seq<seq<string>>)

  /** `main()`. The configuration file's contents arrive as `config` (`None` when
      the file is missing or is not valid JSON); the two services are parameters. */
  method Run(keywordArg: string, config: Option<Config>, gemini: GeminiService, server: SearchServer)
    returns (outcome: RunOutcome)
    // an empty keyword ends the run before the configuration is read or any request is sent
    ensures AllSpace(keywordArg) ==> outcome == Exited(1)
    ensures !AllSpace(keywordArg) && config.None? ==> outcome == Exited(1)
    ensures outcome.Exited? ==> outcome.status == 1 && (AllSpace(keywordArg) || config.None?)
    ensures !outcome.Exited? ==>
              var keyword := Strip(keywordArg);
              var cfg := config.value;
              var keywords := RelatedKeywords(keyword, cfg.geminiApiKey, gemini);
              var q := BuildQuery(keywords, ExcludedSites(cfg), IntextKeywords(cfg));
              keyword != "" && outcome.query == q &&
              (outcome.sent == [] <==> (!(Truthy(cfg.googleApiKey) && Truthy(cfg.cx)) || TotalResults(cfg) < 1)) &&
              (Truthy(cfg.googleApiKey) && Truthy(cfg.cx) ==>
                 outcome.sent == Sent(server, Session(cfg.googleApiKey.value, cfg.cx.value, q, 10),
                                      Offsets(TotalResults(cfg), 10)))
    ensures outcome.NoResults? ==>
              var cfg := config.value;
              !(Truthy(cfg.googleApiKey) && Truthy(cfg.cx)) ||
              Collected(server, Session(cfg.googleApiKey.value, cfg.cx.value, outcome.query, 10),
                        Offsets(TotalResults(cfg), 10)) == []
    ensures outcome.Saved? ==>
              var keyword := Strip(keywordArg);
              var cfg := config.value;
              Truthy(cfg.googleApiKey) && Truthy(cfg.cx) &&
              outcome.jsonItems == Collected(server, Session(cfg.googleApiKey.value, cfg.cx.value, outcome.query, 10),
                                             Offsets(TotalResults(cfg), 10)) &&
              outcome.jsonItems != [] &&
              outcome.jsonFile == JsonFileName(keyword) && outcome.csvFile == CsvFileName(keyword) &&
              |outcome.csvRows| == |outcome.jsonItems| + 1 && outcome.csvRows[0] == ["Title", "Link"] &&
              forall k :: 0 <= k < |outcome.jsonItems| ==>
                outcome.csvRows[k + 1] == [outcome.jsonItems[k].title.GetOr("N/A"), outcome.jsonItems[k].link.GetOr("N/A")]
  {
    var checked := CheckKeyword(keywordArg);
    if checked.None? {
      return Exited(1);
    }
    var keyword := checked.value;
    if config.None? {
      return Exited(1);
    }
    var cfg := config.value;
    var keywords := RelatedKeywords(keyword, cfg.geminiApiKey, gemini);
    var query := BuildQuery(keywords, ExcludedSites(cfg), IntextKeywords(cfg));
    var results, sent := GoogleSearch(query, cfg, 10, server);
    if Truthy(cfg.googleApiKey) && Truthy(cfg.cx) {
      OffsetsShape(TotalResults(cfg), 10);
      SentShape(server, Session(cfg.googleApiKey.value, cfg.cx.value, query, 10), Offsets(TotalResults(cfg), 10));
    }
    if results == [] {
      return NoResults(query, sent);
    }
    var rows := SaveResultsToCsv(results);
    outcome := Saved(query, sent, JsonFileName(keyword), results, CsvFileName(keyword), rows);
  }
}
