/** The Yep search engine (src/engines/search/yep.rs): a fixed API request and
    the mapping of the API's `["Ok", {results: [...]}]` reply onto engine
    results. */
module Yep {
  import opened Wrappers
  import opened Engines
  import Registry

  const Endpoint: string := "https://api.yep.com/fs/2/search"

  /** The parameters of a request for `query`, in the order they are sent. */
  function Params(query: string): seq<(string, string)> {
    [("client", "web"), ("gl", "all"), ("no_correct", "true"),
     ("q", query), ("safeSearch", "off"), ("type", "web")]
  }

  /** The value of the first parameter named `key`. */
  function ParamValue(params: seq<(string, string)>, key: string): (r: Option<string>)
    ensures r.None? <==> forall i :: 0 <= i < |params| ==> params[i].0 != key
    ensures r.Some? ==> exists i :: 0 <= i < |params| && params[i] == (key, r.value)
  {
    if |params| == 0 then None
    else if params[0].0 == key then Some(params[0].1)
    else
      var r := ParamValue(params[1..], key);
      assert forall i :: 0 < i < |params| ==> params[i] == params[1..][i - 1];
      assert r.Some? ==> exists i :: 0 <= i < |params[1..]| && params[1..][i] == (key, r.value);
      r
  }

  /** A parameter whose name no earlier parameter has is the one found. */
  lemma {:induction false} ParamValueAt(params: seq<(string, string)>, i: nat)
    requires i < |params|
    requires forall j :: 0 <= j < i ==> params[j].0 != params[i].0
    ensures ParamValue(params, params[i].0) == Some(params[i].1)
  {
    if i > 0 {
      assert params[1..][i - 1] == params[i];
      ParamValueAt(params[1..], i - 1);
    }
  }

  /** Two parameter lists with the same names, agreeing on the values under
      `key`, give the same value for `key`. */
  lemma {:induction false} ParamValueSameNames(ps1: seq<(string, string)>, ps2: seq<(string, string)>, key: string)
    requires |ps1| == |ps2|
    requires forall i :: 0 <= i < |ps1| ==> ps1[i].0 == ps2[i].0
    requires forall i :: 0 <= i < |ps1| && ps1[i].0 == key ==> ps1[i].1 == ps2[i].1
    ensures ParamValue(ps1, key) == ParamValue(ps2, key)
  {
    if |ps1| > 0 && ps1[0].0 != key {
      ParamValueSameNames(ps1[1..], ps2[1..], key);
    }
  }

  /** `request`: always a GET of the endpoint. */
  function Request(query: string): (r: RequestResponse)
    ensures r.Http? && r.request.url == Endpoint
    ensures ParamValue(r.request.params, "q") == Some(query)
  {
    ParamValueAt(Params(query), 3);
    Http(Get(Endpoint, Params(query)))
  }

  /** The query reaches the API only as the `q` parameter: every other
      parameter is the same for every query. */
  lemma RequestOnlyQueryVaries(q1: string, q2: string, key: string)
    requires key != "q"
    ensures ParamValue(Request(q1).request.params, key) == ParamValue(Request(q2).request.params, key)
  {
    ParamValueSameNames(Params(q1), Params(q2), key);
  }

  /** No two parameters of a request share a name. */
  lemma ParamNamesDistinct(query: string)
    ensures var ps := Request(query).request.params;
            forall i, j :: 0 <= i < j < |ps| ==> ps[i].0 != ps[j].0
  {
    var ps := Params(query);
    assert ps[2].0[0] == 'n' && ps[4].0[0] == 's';
  }

  /** One element of the API's `results` array. */
  datatype ApiResult = ApiResult(url: string, title: string, snippet: string)

  /** The second element of the API's reply. */
  datatype ApiResponse = ApiResponse(results: seq<ApiResult>)

  /** The JSON decoder: the reply as a status code and a response, or the
      decoding error's message. */
  type Decoder = string -> Result<(string, ApiResponse), string>

  /** The engine result an API result becomes: the snippet is the description. */
  function ToEngineResult(a: ApiResult): (r: EngineSearchResult)
    ensures r.url == a.url && r.title == a.title && r.description == a.snippet
  {
    EngineSearchResult(a.url, a.title, a.snippet)
  }

  /** The mapping back, which recovers the API result. */
  function ToApiResult(r: EngineSearchResult): (a: ApiResult)
    ensures ToEngineResult(a) == r
  {
    ApiResult(r.url, r.title, r.description)
  }

  /** `parse_response`: a decoding error propagates; a status other than `Ok`
      gives no results; otherwise every API result, in order, becomes an
      engine result and nothing else is filled. */
  function ParseResponse(body: string, decode: Decoder): (r: Result<EngineResponse, string>)
    ensures decode(body).Failure? ==> r == Failure(decode(body).error)
    ensures decode(body).Success? && decode(body).value.0 != "Ok" ==> r == Success(EmptyResponse)
    ensures decode(body).Success? && decode(body).value.0 == "Ok" ==>
      var results := decode(body).value.1.results;
      && r.Success?
      && r.value.featuredSnippet.None? && r.value.answerHtml.None? && r.value.infoboxHtml.None?
      && |r.value.searchResults| == |results|
      && forall i :: 0 <= i < |results| ==> r.value.searchResults[i] == ToEngineResult(results[i])
  {
    match decode(body)
    case Failure(e) => Failure(e)
    case Success((code, response)) =>
      if code != "Ok" then Success(EmptyResponse)
      else
        Success(EngineResponse(seq(|response.results|, i requires 0 <= i < |response.results| => ToEngineResult(response.results[i])),
                               None, None, None))
  }

  /** No API result is lost or altered: mapping the engine results back gives
      the API's results. */
  lemma ParseResponseRecoversResults(body: string, decode: Decoder)
    requires decode(body).Success? && decode(body).value.0 == "Ok"
    ensures var r := ParseResponse(body, decode).value.searchResults;
            seq(|r|, i requires 0 <= i < |r| => ToApiResult(r[i])) == decode(body).value.1.results
  {
    var r := ParseResponse(body, decode).value.searchResults;
    var results := decode(body).value.1.results;
    forall i | 0 <= i < |r| ensures ToApiResult(r[i]) == results[i] {
      assert r[i] == ToEngineResult(results[i]);
    }
  }

  /** The registry line `Yep => search::yep::request, parse_response`. */
  function Capability(decode: Decoder): Registry.SearchCapability
  {
    Registry.Capability((q: SearchQuery) => Request(q.query), Some((res: HttpResponse) => ParseResponse(res.body, decode)))
  }

  /** With that line as the engine's first arm, `Engine::request` and
      `Engine::parse_response` dispatch to this module. */
  lemma RegisteredSearch(reg: Registry.Registry, e: Registry.Engine, i: nat, decode: Decoder,
                         q: SearchQuery, res: HttpResponse)
    requires Registry.IsDeclared(reg, e)
    requires Registry.IsFirstArm(reg.search, e, i)
    requires reg.search[i].1 == Capability(decode)
    ensures Registry.Request(reg, e, q) == Request(q.query)
    ensures Registry.ParseResponse(reg, e, res) == ParseResponse(res.body, decode)
  {
    var k := Registry.FirstArm(reg.search, e);
    assert Registry.IsListed(reg.search, e);
    Registry.FirstArmUnique(reg.search, e, k.value, i);
  }
}
