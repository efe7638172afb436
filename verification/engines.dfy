/** The value types the engines exchange with the dispatcher. Only the fields
    the modelled code reads or writes are kept. */
module Engines {
  import opened Wrappers

  /** A search request as engines see it; only the query text is read here. */
  datatype SearchQuery = SearchQuery(query: string)

  /** One result of one engine. */
  datatype EngineSearchResult = EngineSearchResult(url: string, title: string, description: string)

  /** What one engine contributes: results plus optional markup slots. The
      featured snippet's own fields are not read anywhere in this model and
      are carried as one markup string. */
  datatype EngineResponse = EngineResponse(
    searchResults: seq<EngineSearchResult>,
    featuredSnippet: Option<string>,
    answerHtml: Option<string>,
    infoboxHtml: Option<string>)

  /** `EngineResponse::new()`: no contribution at all. */
  const EmptyResponse: EngineResponse := EngineResponse([], None, None, None)

  /** `EngineResponse::answer_html(html)`: only the answer slot is filled. */
  function AnswerResponse(html: string): EngineResponse {
    EngineResponse([], None, Some(html), None)
  }

  /** An outbound GET: the target and its query parameters in order. URL
      building and percent-encoding are not modelled. */
  datatype HttpRequest = Get(url: string, params: seq<(string, string)>)

  /** A received HTTP response; the parsers read only its body. */
  datatype HttpResponse = HttpResponse(body: string)

  /** What a search engine's `request` yields: no request, a request to send,
      or an answer computed without the network. */
  datatype RequestResponse = NoRequest | Http(request: HttpRequest) | Instant(response: EngineResponse)

  /** What an autocomplete engine's request yields: a request to send, or
      suggestions computed without the network. */
  datatype RequestAutocompleteResponse =
    | AutocompleteHttp(request: HttpRequest)
    | AutocompleteInstant(suggestions: seq<string>)

  /** The merged response that postsearch engines inspect; only its ordered
      results are read. */
  datatype Response = Response(searchResults: seq<EngineSearchResult>)
}
