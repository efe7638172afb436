/** The Urban Dictionary postsearch engine's request step
    (src/engines/postsearch/urbandictionary.rs): among the first eight merged
    results, the first whose URL is an Urban Dictionary definition page is
    fetched. */
module UrbanDictionary {
  import opened Wrappers
  import opened Engines
  import Registry

  /** How many of the merged results are inspected. */
  const Window: nat := 8

  const DefinePrefix: string := "https://www.urbandictionary.com/define.php?term="

  /** A character of the term: a word character or one of `.`, `-`, `+`. */
  predicate IsTermChar(c: char) {
    ('a' <= c <= 'z') || ('A' <= c <= 'Z') || ('0' <= c <= '9') || c == '_'
    || c == '.' || c == '-' || c == '+'
  }

  /** The whole URL is the definition-page prefix followed by a non-empty term. */
  predicate IsDefinitionUrl(url: string) {
    && DefinePrefix <= url
    && |url| > |DefinePrefix|
    && forall k :: |DefinePrefix| <= k < |url| ==> IsTermChar(url[k])
  }

  /** The first result of `results` with a definition URL, as a GET of that URL. */
  function FirstDefinition(results: seq<EngineSearchResult>): (r: Option<HttpRequest>)
    ensures r.None? <==> forall i :: 0 <= i < |results| ==> !IsDefinitionUrl(results[i].url)
    ensures r.Some? ==>
      exists i :: 0 <= i < |results|
        && IsDefinitionUrl(results[i].url)
        && r.value == Get(results[i].url, [])
        && (forall j :: 0 <= j < i ==> !IsDefinitionUrl(results[j].url))
  {
    if |results| == 0 then None
    else if IsDefinitionUrl(results[0].url) then Some(Get(results[0].url, []))
    else
      var r := FirstDefinition(results[1..]);
      ShiftNoDefinition(results);
      if r.None? then r
      else
        ShiftFirstDefinition(results, r.value);
        r
  }

  /** The first result has no definition URL and none of the later ones has:
      none has. */
  lemma ShiftNoDefinition(results: seq<EngineSearchResult>)
    requires |results| > 0 && !IsDefinitionUrl(results[0].url)
    ensures (forall i :: 0 <= i < |results[1..]| ==> !IsDefinitionUrl(results[1..][i].url))
      ==> forall i :: 0 <= i < |results| ==> !IsDefinitionUrl(results[i].url)
  {
    if forall i :: 0 <= i < |results[1..]| ==> !IsDefinitionUrl(results[1..][i].url) {
      forall i | 0 <= i < |results| ensures !IsDefinitionUrl(results[i].url) {
        if i > 0 { assert results[i] == results[1..][i - 1]; }
      }
    }
  }

  /** A first definition URL among the later results, after a first result
      without one, is the first definition URL of all of them. */
  lemma ShiftFirstDefinition(results: seq<EngineSearchResult>, req: HttpRequest)
    requires |results| > 0 && !IsDefinitionUrl(results[0].url)
    requires
      exists i :: 0 <= i < |results[1..]|
        && IsDefinitionUrl(results[1..][i].url)
        && req == Get(results[1..][i].url, [])
        && (forall j :: 0 <= j < i ==> !IsDefinitionUrl(results[1..][j].url))
    ensures
      exists k :: 0 <= k < |results|
        && IsDefinitionUrl(results[k].url)
        && req == Get(results[k].url, [])
        && (forall j :: 0 <= j < k ==> !IsDefinitionUrl(results[j].url))
  {
    var i :| 0 <= i < |results[1..]|
        && IsDefinitionUrl(results[1..][i].url)
        && req == Get(results[1..][i].url, [])
        && (forall j :: 0 <= j < i ==> !IsDefinitionUrl(results[1..][j].url));
    var k := i + 1;
    assert results[k] == results[1..][i];
    forall j | 0 <= j < k ensures !IsDefinitionUrl(results[j].url) {
      if j > 0 { assert results[j] == results[1..][j - 1]; }
    }
  }

  /** The results inspected: at most the first eight. */
  function Inspected(response: Response): (r: seq<EngineSearchResult>)
    ensures |r| <= Window
    ensures r <= response.searchResults
    ensures |r| == Window || r == response.searchResults
  {
    if |response.searchResults| <= Window then response.searchResults
    else response.searchResults[..Window]
  }

  /** `request`: a GET of the first definition URL among the first eight
      results; no request when none of them has one. */
  function Request(response: Response): (r: Option<HttpRequest>)
    ensures r.None? <==>
      forall i :: 0 <= i < |response.searchResults| && i < Window ==>
        !IsDefinitionUrl(response.searchResults[i].url)
    ensures r.Some? ==>
      exists i :: 0 <= i < |response.searchResults| && i < Window
        && IsDefinitionUrl(response.searchResults[i].url)
        && (forall j :: 0 <= j < i ==> !IsDefinitionUrl(response.searchResults[j].url))
        && r.value == Get(response.searchResults[i].url, [])
  {
    var inspected := Inspected(response);
    assert forall i :: 0 <= i < |inspected| ==> inspected[i] == response.searchResults[i];
    FirstDefinition(inspected)
  }

  /** Results after the eighth never influence the request. */
  lemma RequestIgnoresLaterResults(front: seq<EngineSearchResult>, a: seq<EngineSearchResult>, b: seq<EngineSearchResult>)
    requires |front| >= Window
    ensures Request(Response(front + a)) == Request(Response(front + b))
  {
    assert (front + a)[..Window] == front[..Window];
    assert (front + b)[..Window] == front[..Window];
  }

  /** A definition URL ahead of any other wins: putting results before the
      first definition URL that have none changes nothing. */
  lemma {:induction false} FirstDefinitionSkips(skipped: seq<EngineSearchResult>, rest: seq<EngineSearchResult>)
    requires forall i :: 0 <= i < |skipped| ==> !IsDefinitionUrl(skipped[i].url)
    ensures FirstDefinition(skipped + rest) == FirstDefinition(rest)
    decreases |skipped|
  {
    if |skipped| > 0 {
      assert (skipped + rest)[0] == skipped[0];
      assert (skipped + rest)[1..] == skipped[1..] + rest;
      FirstDefinitionSkips(skipped[1..], rest);
    } else {
      assert skipped + rest == rest;
    }
  }

  /** Two result lists with the same URLs in the same order: titles and
      descriptions never influence the choice. */
  lemma {:induction false} FirstDefinitionReadsOnlyUrls(a: seq<EngineSearchResult>, b: seq<EngineSearchResult>)
    requires |a| == |b|
    requires forall i :: 0 <= i < |a| ==> a[i].url == b[i].url
    ensures FirstDefinition(a) == FirstDefinition(b)
    decreases |a|
  {
    if |a| > 0 && !IsDefinitionUrl(a[0].url) {
      FirstDefinitionReadsOnlyUrls(a[1..], b[1..]);
    }
  }

  /** The same for the whole request. */
  lemma RequestReadsOnlyUrls(a: Response, b: Response)
    requires |a.searchResults| == |b.searchResults|
    requires forall i :: 0 <= i < |a.searchResults| ==> a.searchResults[i].url == b.searchResults[i].url
    ensures Request(a) == Request(b)
  {
    FirstDefinitionReadsOnlyUrls(Inspected(a), Inspected(b));
  }

  /** The registry line `UrbanDictionary => postsearch::urbandictionary::request,
      parse_response`; the page scraper is a parameter. */
  function Capability(parse: HttpResponse -> Option<string>): Registry.PostsearchCapability
  {
    Registry.Capability((r: Response) => Request(r), Some(parse))
  }

  /** With that line as the engine's first arm, `Engine::postsearch_request`
      and `Engine::postsearch_parse_response` dispatch to this module. */
  lemma RegisteredPostsearch(reg: Registry.Registry, e: Registry.Engine, i: nat,
                             parse: HttpResponse -> Option<string>, response: Response, res: HttpResponse)
    requires Registry.IsFirstArm(reg.postsearch, e, i)
    requires reg.postsearch[i].1 == Capability(parse)
    ensures Registry.PostsearchRequest(reg, e, response) == Request(response)
    ensures Registry.PostsearchParseResponse(reg, e, res) == parse(res)
  {
    var k := Registry.FirstArm(reg.postsearch, e);
    assert Registry.IsListed(reg.postsearch, e);
    Registry.FirstArmUnique(reg.postsearch, e, k.value, i);
  }
}
