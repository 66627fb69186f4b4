/** Keyword expansion (`get_related_keywords`): ask the generative-language
    service for aliases of the search term and parse its comma-separated
    reply, falling back to the term alone when there is no key, the request
    fails or the reply lacks the expected fields. */
module Keywords {
  import opened Wrappers
  import opened PyStr
  import opened Settings

  /** The request the code sends: the API key travels in the URL, the prompt in the body. */
  datatype GeminiRequest = GeminiRequest(apiKey: string, prompt: string)

  /** What the generateContent call comes back with, as far as the code tells replies apart. */
  datatype GeminiReply =
    | RequestError        // a RequestException: network error, timeout or non-2xx status
    | NoCandidates        // the decoded reply has no "candidates" key
    | NoParts             // candidates[0].content has no "parts" key
    | Text(text: string)  // candidates[0].content.parts[0].text

  /** The service, as a function from the request sent to the reply received. */
  type GeminiService = GeminiRequest -> GeminiReply

  /** Why an expansion fell back to the search term. */
  datatype ExpansionFailure = MissingKey | RequestFailed | UnexpectedShape

  function Prompt(term: string): string {
    "Provide related APT or threat actor names for: " + term
      + ". Include alternative names and aliases, separated by commas."
  }

  /** `[f.strip() for f in frags if f]`: the test for emptiness comes before the
      strip, so a fragment of whitespace only is kept, as "". */
  function KeepStripped(frags: seq<string>): (r: seq<string>)
    ensures |r| <= |frags|
  {
    if frags == [] then []
    else (if frags[0] != "" then [Strip(frags[0])] else []) + KeepStripped(frags[1..])
  }

  /** The aliases read from the reply text. */
  function ParseAliases(text: string): seq<string> {
    KeepStripped(Split(text, ','))
  }

  /** The expansion with its failure reason kept: a missing or empty key, a
      failed request, and a reply lacking "candidates" or "parts" each have their
      own reason, and only a reply text succeeds. */
  function Expand(term: string, key: Option<string>, gemini: GeminiService): (r: Result<seq<string>, ExpansionFailure>)
    ensures r == Failure(MissingKey) <==> !Truthy(key)
    ensures r == Failure(RequestFailed) <==>
              Truthy(key) && gemini(GeminiRequest(key.value, Prompt(term))).RequestError?
    ensures r == Failure(UnexpectedShape) <==>
              Truthy(key) && (gemini(GeminiRequest(key.value, Prompt(term))).NoCandidates? ||
                              gemini(GeminiRequest(key.value, Prompt(term))).NoParts?)
    ensures r.Success? <==> Truthy(key) && gemini(GeminiRequest(key.value, Prompt(term))).Text?
  {
    if !Truthy(key) then Failure(MissingKey)
    else
      match gemini(GeminiRequest(key.value, Prompt(term)))
      case RequestError => Failure(RequestFailed)
      case NoCandidates => Failure(UnexpectedShape)
      case NoParts => Failure(UnexpectedShape)
      case Text(t) => Success(ParseAliases(t))
  }

  /** `get_related_keywords(term, key)`: any failure collapses to `[term]`. */
  function RelatedKeywords(term: string, key: Option<string>, gemini: GeminiService): (r: seq<string>)
    ensures !Truthy(key) ==> r == [term]
    ensures Truthy(key) && !gemini(GeminiRequest(key.value, Prompt(term))).Text? ==> r == [term]
    ensures Truthy(key) && gemini(GeminiRequest(key.value, Prompt(term))).Text? ==>
              r == ParseAliases(gemini(GeminiRequest(key.value, Prompt(term))).text)
  {
    Expand(term, key, gemini).GetOr([term])
  }

  /** Filtering and stripping works fragment by fragment: the aliases of two
      runs of fragments are the aliases of the first followed by those of the second. */
  lemma {:induction false} KeepStrippedAppend(a: seq<string>, b: seq<string>)
    ensures KeepStripped(a + b) == KeepStripped(a) + KeepStripped(b)
  {
    if a == [] {
      assert a + b == b;
    } else {
      assert (a + b)[0] == a[0] && (a + b)[1..] == a[1..] + b;
      KeepStrippedAppend(a[1..], b);
    }
  }

  /** Each non-empty fragment adds exactly one alias, itself stripped, right
      after the aliases of the fragments before it; an empty fragment adds nothing. */
  lemma FragmentLands(frags: seq<string>, i: nat)
    requires i < |frags|
    ensures frags[i] == "" ==> KeepStripped(frags[..i + 1]) == KeepStripped(frags[..i])
    ensures frags[i] != "" ==> KeepStripped(frags[..i + 1]) == KeepStripped(frags[..i]) + [Strip(frags[i])]
    ensures frags[i] != "" ==>
              var n := |KeepStripped(frags[..i])|;
              n < |KeepStripped(frags)| && KeepStripped(frags)[n] == Strip(frags[i])
  {
    assert frags[..i + 1] == frags[..i] + [frags[i]];
    assert frags == frags[..i + 1] + frags[i + 1..];
    KeepStrippedAppend(frags[..i], [frags[i]]);
    KeepStrippedAppend(frags[..i + 1], frags[i + 1..]);
  }

  /** Every alias is trimmed and holds no comma. */
  lemma {:induction false} AliasesClean(frags: seq<string>)
    requires forall k :: 0 <= k < |frags| ==> ',' !in frags[k]
    ensures forall k :: 0 <= k < |KeepStripped(frags)| ==>
              Trimmed(KeepStripped(frags)[k]) && ',' !in KeepStripped(frags)[k]
  {
    if frags != [] {
      AliasesClean(frags[1..]);
    }
  }

  /** The same for the parsed reply. */
  lemma ParsedAliasesClean(text: string)
    ensures forall k :: 0 <= k < |ParseAliases(text)| ==>
              Trimmed(ParseAliases(text)[k]) && ',' !in ParseAliases(text)[k]
  {
    SplitFragments(text, ',');
    AliasesClean(Split(text, ','));
  }

  /** Each word with a space in front of it. */
  function SpaceBefore(ys: seq<string>): (r: seq<string>)
    ensures |r| == |ys|
  {
    if ys == [] then [] else [" " + ys[0]] + SpaceBefore(ys[1..])
  }

  /** `", ".join(xs)` is `",".join` of the words with a space put before every word but the first. */
  lemma {:induction false} JoinCommaSpace(xs: seq<string>)
    requires xs != []
    ensures Join(", ", xs) == Join(",", [xs[0]] + SpaceBefore(xs[1..]))
  {
    if |xs| > 1 {
      var ys := xs[1..];
      JoinCommaSpace(ys);
      var l := SpaceBefore(ys[1..]);
      assert SpaceBefore(ys) == [" " + ys[0]] + l;
      assert Join(",", [" " + ys[0]] + l) == " " + Join(",", [ys[0]] + l) by {
        if l != [] {
          assert ([" " + ys[0]] + l)[1..] == l && ([ys[0]] + l)[1..] == l;
        }
      }
      assert ([xs[0]] + SpaceBefore(ys))[1..] == SpaceBefore(ys);
    }
  }

  /** Stripping removes the space put before each word. */
  lemma {:induction false} KeepSpaceBefore(ys: seq<string>)
    requires forall k :: 0 <= k < |ys| ==> Trimmed(ys[k])
    ensures KeepStripped(SpaceBefore(ys)) == ys
  {
    if ys != [] {
      StripPadded(" ", ys[0], "");
      assert " " + ys[0] + "" == " " + ys[0];
      KeepSpaceBefore(ys[1..]);
    }
  }

  /** The padded words hold no comma when the words hold none. */
  lemma PaddedCommaFree(xs: seq<string>)
    requires xs != []
    requires forall k :: 0 <= k < |xs| ==> ',' !in xs[k]
    ensures var ps := [xs[0]] + SpaceBefore(xs[1..]);
              forall k :: 0 <= k < |ps| ==> ',' !in ps[k]
  {
    var ps := [xs[0]] + SpaceBefore(xs[1..]);
    forall k | 0 <= k < |ps| ensures ',' !in ps[k] {
      if k > 0 { SpaceBeforeAt(xs[1..], k - 1); }
    }
  }

  /** Stripping the padded words gives the words back. */
  lemma KeepPadded(xs: seq<string>)
    requires xs != [] && xs[0] != ""
    requires forall k :: 0 <= k < |xs| ==> Trimmed(xs[k])
    ensures KeepStripped([xs[0]] + SpaceBefore(xs[1..])) == xs
  {
    KeepStrippedAppend([xs[0]], SpaceBefore(xs[1..]));
    StripPadded("", xs[0], "");
    assert "" + xs[0] + "" == xs[0];
    assert KeepStripped([xs[0]]) == [xs[0]];
    KeepSpaceBefore(xs[1..]);
  }

  /** Round trip: a reply listing trimmed, comma-free aliases as `", ".join(aliases)`
      (the first one not empty) parses back to exactly those aliases. */
  lemma ParseJoinedAliases(xs: seq<string>)
    requires forall k :: 0 <= k < |xs| ==> Trimmed(xs[k]) && ',' !in xs[k]
    requires xs != [] ==> xs[0] != ""
    ensures ParseAliases(Join(", ", xs)) == xs
  {
    if xs != [] {
      var ps := [xs[0]] + SpaceBefore(xs[1..]);
      JoinCommaSpace(xs);
      PaddedCommaFree(xs);
      SplitJoin(ps, ',');
      KeepPadded(xs);
    } else {
      assert Split("", ',') == [""];
    }
  }

  lemma {:induction false} SpaceBeforeAt(ys: seq<string>, k: nat)
    requires k < |ys|
    ensures SpaceBefore(ys)[k] == " " + ys[k]
  {
    if k > 0 { SpaceBeforeAt(ys[1..], k - 1); }
  }

  /** The fragments of a reply, as `str.split(",")` cuts them. */
  lemma SplitAt(text: string, frags: seq<string>)
    requires frags != [] && forall k :: 0 <= k < |frags| ==> ',' !in frags[k]
    requires Join(",", frags) == text
    ensures Split(text, ',') == frags
  {
    SplitJoin(frags, ',');
  }

  /** A well-formed reply whose aliases carry padding. */
  lemma ParseExample()
    ensures ParseAliases("A, B ,C") == ["A", "B", "C"]
  {
    ExampleJoin("A", " B ", "C");
    SplitAt("A, B ,C", ["A", " B ", "C"]);
    StripExamples();
  }

  /** A fragment of whitespace only survives as an empty alias. */
  lemma ParseBlankFragment()
    ensures ParseAliases("A, ,B") == ["A", "", "B"]
  {
    ExampleJoin("A", " ", "B");
    SplitAt("A, ,B", ["A", " ", "B"]);
    StripExamples();
  }

  /** A truly empty fragment is dropped. */
  lemma ParseEmptyFragment()
    ensures ParseAliases("A,,B") == ["A", "B"]
  {
    ExampleJoin("A", "", "B");
    SplitAt("A,,B", ["A", "", "B"]);
    StripExamples();
  }

  /** Three comma-free fragments joined with commas. */
  lemma ExampleJoin(a: string, b: string, c: string)
    requires ',' !in a && ',' !in b && ',' !in c
    ensures Join(",", [a, b, c]) == a + "," + b + "," + c
    ensures forall k :: 0 <= k < 3 ==> ',' !in [a, b, c][k]
  {
    assert [a, b, c][1..] == [b, c] && [b, c][1..] == [c];
    assert Join(",", [b, c]) == b + "," + c;
    assert a + "," + (b + "," + c) == a + "," + b + "," + c;
  }

  /** A reply whose text is empty expands to no keyword at all, not to the
      fallback `[term]`. */
  lemma EmptyReplyGivesNoKeywords(term: string, key: Option<string>, gemini: GeminiService)
    requires Truthy(key) && gemini(GeminiRequest(key.value, Prompt(term))) == Text("")
    ensures RelatedKeywords(term, key, gemini) == []
  {
  }
}
