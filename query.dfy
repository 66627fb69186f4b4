/** The dorking query (`build_google_dorking_query`): the quoted keywords
    joined by OR inside parentheses, then the site exclusions, then the
    required in-text words, the three groups separated by single spaces. */
module Query {
  import opened PyStr

  /** Each keyword inside double quotes. */
  function Quoted(keywords: seq<string>): seq<string> {
    seq(|keywords|, k requires 0 <= k < |keywords| => "\"" + keywords[k] + "\"")
  }

  /** Each word with `prefix` in front of it. */
  function Prefixed(prefix: string, words: seq<string>): seq<string> {
    seq(|words|, k requires 0 <= k < |words| => prefix + words[k])
  }

  /** The parenthesised OR-group of quoted keywords. */
  function KeywordGroup(keywords: seq<string>): string {
    "(" + Join(" OR ", Quoted(keywords)) + ")"
  }

  function ExclusionGroup(sites: seq<string>): string {
    Join(" ", Prefixed("-site:", sites))
  }

  function IntextGroup(words: seq<string>): string {
    Join(" ", Prefixed("intext:", words))
  }

  /** The query string. Empty groups are not special-cased. */
  function BuildQuery(keywords: seq<string>, sites: seq<string>, intext: seq<string>): (q: string)
    ensures |q| >= 4 && q[0] == '('
  {
    KeywordGroup(keywords) + " " + ExclusionGroup(sites) + " " + IntextGroup(intext)
  }

  /** With every group present the query is one space-separated list of search
      operators: the OR-group, each `-site:` term, each `intext:` term, in that order. */
  lemma QueryIsTokenList(keywords: seq<string>, sites: seq<string>, intext: seq<string>)
    requires sites != [] && intext != []
    ensures BuildQuery(keywords, sites, intext)
         == Join(" ", [KeywordGroup(keywords)] + Prefixed("-site:", sites) + Prefixed("intext:", intext))
  {
    var g, s, i := [KeywordGroup(keywords)], Prefixed("-site:", sites), Prefixed("intext:", intext);
    JoinAppend(" ", g, s);
    JoinAppend(" ", g + s, i);
  }

  /** An empty exclusion list leaves two spaces between the OR-group and the
      in-text terms; an empty in-text list leaves a trailing space; both empty
      leave two trailing spaces. */
  lemma EmptyGroupsLeaveSpaces(keywords: seq<string>, sites: seq<string>, intext: seq<string>)
    ensures sites == [] ==>
              BuildQuery(keywords, sites, intext) == KeywordGroup(keywords) + "  " + IntextGroup(intext)
    ensures intext == [] ==>
              BuildQuery(keywords, sites, intext) == KeywordGroup(keywords) + " " + ExclusionGroup(sites) + " "
    ensures sites == [] && intext == [] ==>
              BuildQuery(keywords, sites, intext) == KeywordGroup(keywords) + "  "
  {
    var g := KeywordGroup(keywords);
    if sites == [] {
      assert ExclusionGroup(sites) == [];
      assert g + " " + [] + " " + IntextGroup(intext) == g + "  " + IntextGroup(intext);
    }
    if intext == [] {
      assert IntextGroup(intext) == [];
      assert g + " " + ExclusionGroup(sites) + " " + [] == g + " " + ExclusionGroup(sites) + " ";
    }
  }

  /** The fallback keyword list `[term]` gives a single quoted phrase in parentheses. */
  lemma SingleKeywordGroup(term: string)
    ensures KeywordGroup([term]) == "(\"" + term + "\")"
  {
    assert Quoted([term]) == ["\"" + term + "\""];
  }

  /** The query for two keywords, one excluded site and one in-text word:
      `("X" OR "Y") -site:a.com intext:malware` for X, Y, a.com and malware. */
  lemma QueryOfTwoKeywords(x: string, y: string, site: string, word: string)
    ensures BuildQuery([x, y], [site], [word])
         == KeywordGroup([x, y]) + " " + "-site:" + site + " " + "intext:" + word
    ensures KeywordGroup([x, y]) == "(" + "\"" + x + "\"" + " OR " + "\"" + y + "\"" + ")"
  {
    var quoted := Quoted([x, y]);
    assert quoted == ["\"" + x + "\"", "\"" + y + "\""];
    assert quoted[1..] == ["\"" + y + "\""];
    assert Prefixed("-site:", [site]) == ["-site:" + site];
    assert Prefixed("intext:", [word]) == ["intext:" + word];
    assert ExclusionGroup([site]) == "-site:" + site;
    assert IntextGroup([word]) == "intext:" + word;
    assert Join(" OR ", quoted) == "\"" + x + "\"" + " OR " + "\"" + y + "\"";
  }
}
