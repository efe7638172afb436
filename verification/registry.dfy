/** The engine registry that the `engines!`, `engine_weights!`,
    `engine_scholarly!`, `engine_enabled!`, `engine_requests!`,
    `engine_autocomplete_requests!` and `engine_postsearch_requests!` macros
    generate (src/engines/macros.rs). The macros turn lists of
    `Variant = value` or `Variant => handler, parser` lines into an enum and
    `match` expressions; here each list is a sequence of entries, and a `match`
    is a lookup of the first entry for the engine (the first arm wins, and a
    variant without an arm falls to the `_` arm's default). */
module Registry {
  import opened Wrappers
  import opened Engines

  /** A variant of the generated `Engine` enum, named by its position in the
      `engines!` list; the derived `Ord` is this position. */
  datatype Engine = Engine(ord: nat)

  /** One `Variant = "id"` line of `engines!`. */
  datatype EngineDecl = EngineDecl(variant: string, id: string)

  /** An `f64` weight, kept opaque as its IEEE 754 bit pattern. */
  datatype F64 = F64(bits: bv64)

  /** The `f64` value `1.0`, the weight of engines `engine_weights!` does not list. */
  const DefaultWeight: F64 := F64(0x3FF0_0000_0000_0000)

  /** One `Variant => module::engine::request, parse_response` line; `parse`
      is `None` where the line names `None` as the parser. */
  datatype Capability<-Q, O, -P, R> = Capability(request: Q -> O, parse: Option<P -> R>)

  type SearchCapability =
    Capability<SearchQuery, RequestResponse, HttpResponse, Result<EngineResponse, string>>
  type AutocompleteCapability =
    Capability<string, RequestAutocompleteResponse, string, Result<seq<string>, string>>
  type PostsearchCapability =
    Capability<Response, Option<HttpRequest>, HttpResponse, Option<string>>

  /** Everything the macro invocations declare, each list in its written order. */
  datatype Registry = Registry(
    engines: seq<EngineDecl>,
    weights: seq<(Engine, F64)>,
    scholarly: seq<(Engine, bool)>,
    enabledByDefault: seq<(Engine, bool)>,
    search: seq<(Engine, SearchCapability)>,
    autocomplete: seq<(Engine, AutocompleteCapability)>,
    postsearch: seq<(Engine, PostsearchCapability)>)

  /** `e` is a variant of the enum. */
  predicate IsDeclared(reg: Registry, e: Engine) {
    e.ord < |reg.engines|
  }

  /** No two lines of `engines!` give the same id. */
  predicate DistinctIds(reg: Registry) {
    forall i, j :: 0 <= i < j < |reg.engines| ==> reg.engines[i].id != reg.engines[j].id
  }

  /** `Engine::all()`: every variant exactly once, in declaration order. */
  function All(reg: Registry): (r: seq<Engine>)
    ensures |r| == |reg.engines|
    ensures forall e :: e in r <==> IsDeclared(reg, e)
    ensures forall i, j :: 0 <= i < j < |r| ==> r[i].ord < r[j].ord
  {
    var r := seq(|reg.engines|, i requires 0 <= i => Engine(i));
    assert forall e :: IsDeclared(reg, e) ==> r[e.ord] == e;
    r
  }

  /** `Engine::id`: the id string written for the variant. */
  function Id(reg: Registry, e: Engine): string
    requires IsDeclared(reg, e)
  {
    reg.engines[e.ord].id
  }

  /** `Engine::id_proper`: the variant's own name (also its `Debug` text). */
  function IdProper(reg: Registry, e: Engine): string
    requires IsDeclared(reg, e)
  {
    reg.engines[e.ord].variant
  }

  /** `Engine::from_id`: the first declared variant whose id is `s`, if any. */
  function FromId(reg: Registry, s: string): (r: Option<Engine>)
    ensures r.Some? ==> IsDeclared(reg, r.value) && Id(reg, r.value) == s
    ensures r.Some? ==> forall j :: 0 <= j < r.value.ord ==> reg.engines[j].id != s
    ensures r.None? <==> forall j :: 0 <= j < |reg.engines| ==> reg.engines[j].id != s
  {
    FromIdFrom(reg, s, 0)
  }

  /** The search of `from_id` from the `k`-th line on. */
  function FromIdFrom(reg: Registry, s: string, k: nat): (r: Option<Engine>)
    requires k <= |reg.engines|
    ensures r.Some? ==> k <= r.value.ord < |reg.engines| && reg.engines[r.value.ord].id == s
    ensures r.Some? ==> forall j :: k <= j < r.value.ord ==> reg.engines[j].id != s
    ensures r.None? <==> forall j :: k <= j < |reg.engines| ==> reg.engines[j].id != s
    decreases |reg.engines| - k
  {
    if k == |reg.engines| then None
    else if reg.engines[k].id == s then Some(Engine(k))
    else FromIdFrom(reg, s, k + 1)
  }

  /** With pairwise distinct ids, `from_id` inverts `id`. */
  lemma FromIdOfId(reg: Registry, e: Engine)
    requires DistinctIds(reg) && IsDeclared(reg, e)
    ensures FromId(reg, Id(reg, e)) == Some(e)
  {
    FromIdFirstWins(reg, e);
  }

  /** With a repeated id, `from_id` answers the first variant declared with it,
      which is the variant itself or an earlier one. */
  lemma FromIdFirstWins(reg: Registry, e: Engine)
    requires IsDeclared(reg, e)
    ensures FromId(reg, Id(reg, e)).Some?
    ensures FromId(reg, Id(reg, e)).value.ord <= e.ord
    ensures Id(reg, FromId(reg, Id(reg, e)).value) == Id(reg, e)
  {
    var r := FromId(reg, Id(reg, e));
    assert r.Some? by {
      assert reg.engines[e.ord].id == Id(reg, e);
    }
  }

  /** `e` has an arm in the table. */
  predicate IsListed<T>(table: seq<(Engine, T)>, e: Engine) {
    exists i :: 0 <= i < |table| && table[i].0 == e
  }

  /** `i` is the arm a `match` on `e` takes: the first one written for `e`. */
  predicate IsFirstArm<T>(table: seq<(Engine, T)>, e: Engine, i: int) {
    0 <= i < |table| && table[i].0 == e && forall j :: 0 <= j < i ==> table[j].0 != e
  }

  /** A `match` takes one arm only: the first arm for `e` is unique. */
  lemma FirstArmUnique<T>(table: seq<(Engine, T)>, e: Engine, i: int, j: int)
    requires IsFirstArm(table, e, i) && IsFirstArm(table, e, j)
    ensures i == j
  {
  }

  /** The position of the arm a `match` on `e` takes, `None` when only `_` matches. */
  function FirstArm<T>(table: seq<(Engine, T)>, e: Engine): (r: Option<nat>)
    ensures r.Some? ==> IsFirstArm(table, e, r.value)
    ensures r.None? <==> !IsListed(table, e)
  {
    if |table| == 0 then None
    else if table[0].0 == e then Some(0)
    else
      match FirstArm(table[1..], e)
      case None => None
      case Some(i) =>
        assert table[i + 1] == table[1..][i];
        Some(i + 1)
  }

  /** A `match` whose arms yield plain values and whose `_` arm yields `default`. */
  function Lookup<T(==)>(table: seq<(Engine, T)>, e: Engine, default: T): (r: T)
    ensures !IsListed(table, e) ==> r == default
    ensures IsListed(table, e) ==> exists i :: IsFirstArm(table, e, i) && r == table[i].1
  {
    match FirstArm(table, e)
    case None => default
    case Some(i) => table[i].1
  }

  /** `Engine::weight`: the listed weight, else `1.0`. */
  function Weight(reg: Registry, e: Engine): (r: F64)
    ensures !IsListed(reg.weights, e) ==> r == DefaultWeight
    ensures IsListed(reg.weights, e) ==> exists i :: IsFirstArm(reg.weights, e, i) && r == reg.weights[i].1
  {
    Lookup(reg.weights, e, DefaultWeight)
  }

  /** `Engine::is_scholarly`: the listed flag, else `false`. */
  function IsScholarly(reg: Registry, e: Engine): (r: bool)
    ensures !IsListed(reg.scholarly, e) ==> !r
    ensures IsListed(reg.scholarly, e) ==> exists i :: IsFirstArm(reg.scholarly, e, i) && r == reg.scholarly[i].1
  {
    Lookup(reg.scholarly, e, false)
  }

  /** `Engine::is_enabled_by_default`: the listed flag, else `true`. */
  function IsEnabledByDefault(reg: Registry, e: Engine): (r: bool)
    ensures !IsListed(reg.enabledByDefault, e) ==> r
    ensures IsListed(reg.enabledByDefault, e) ==>
      exists i :: IsFirstArm(reg.enabledByDefault, e, i) && r == reg.enabledByDefault[i].1
  {
    Lookup(reg.enabledByDefault, e, true)
  }

  /** `Engine::is_enabled`: the user's entry under the engine's id when there
      is one, otherwise the engine's default. */
  function IsEnabled(reg: Registry, e: Engine, prefs: map<string, bool>): (r: bool)
    requires IsDeclared(reg, e)
    ensures Id(reg, e) in prefs ==> r == prefs[Id(reg, e)]
    ensures Id(reg, e) !in prefs && !IsListed(reg.enabledByDefault, e) ==> r
    ensures Id(reg, e) !in prefs && IsListed(reg.enabledByDefault, e) ==>
      exists i :: IsFirstArm(reg.enabledByDefault, e, i) && r == reg.enabledByDefault[i].1
  {
    if Id(reg, e) in prefs then prefs[Id(reg, e)] else IsEnabledByDefault(reg, e)
  }

  /** Entries for other ids have no effect: two preference maps that agree on
      the engine's id enable it alike. */
  lemma IsEnabledOnlyReadsOwnId(reg: Registry, e: Engine, prefs: map<string, bool>, prefs': map<string, bool>)
    requires IsDeclared(reg, e)
    requires Id(reg, e) in prefs <==> Id(reg, e) in prefs'
    requires Id(reg, e) in prefs ==> prefs[Id(reg, e)] == prefs'[Id(reg, e)]
    ensures IsEnabled(reg, e, prefs) == IsEnabled(reg, e, prefs')
  {
  }

  /** The error `parse_response` reports for an engine that cannot parse. */
  function CantParse(reg: Registry, e: Engine): string
    requires IsDeclared(reg, e)
  {
    "engine " + IdProper(reg, e) + " can't parse response"
  }

  /** The error `parse_autocomplete_response` reports for an engine that cannot parse. */
  function CantParseAutocomplete(reg: Registry, e: Engine): string
    requires IsDeclared(reg, e)
  {
    "engine " + IdProper(reg, e) + " can't parse autocomplete response"
  }

  /** `Engine::request`: the engine's search request, or `RequestResponse::None`
      for an engine without the search capability. */
  function Request(reg: Registry, e: Engine, q: SearchQuery): (r: RequestResponse)
    ensures !IsListed(reg.search, e) ==> r == NoRequest
    ensures IsListed(reg.search, e) ==>
      exists i :: IsFirstArm(reg.search, e, i) && r == reg.search[i].1.request(q)
  {
    match FirstArm(reg.search, e)
    case None => NoRequest
    case Some(i) => reg.search[i].1.request(q)
  }

  /** `Engine::parse_response`: the registered parser's result; an error for an
      engine without the search capability and for one registered with parser `None`. */
  function ParseResponse(reg: Registry, e: Engine, res: HttpResponse): (r: Result<EngineResponse, string>)
    requires IsDeclared(reg, e)
    ensures !IsListed(reg.search, e) ==> r == Failure(CantParse(reg, e))
    ensures IsListed(reg.search, e) ==>
      exists i :: IsFirstArm(reg.search, e, i)
        && (reg.search[i].1.parse.None? ==> r == Failure(CantParse(reg, e)))
        && (reg.search[i].1.parse.Some? ==> r == reg.search[i].1.parse.value(res))
  {
    match FirstArm(reg.search, e)
    case None => Failure(CantParse(reg, e))
    case Some(i) =>
      match reg.search[i].1.parse
      case None => Failure(CantParse(reg, e))
      case Some(parse) => parse(res)
  }

  /** `Engine::request_autocomplete`: the engine's autocomplete request, or
      `None` for an engine without the autocomplete capability. */
  function RequestAutocomplete(reg: Registry, e: Engine, query: string): (r: Option<RequestAutocompleteResponse>)
    ensures r.None? <==> !IsListed(reg.autocomplete, e)
    ensures r.Some? ==>
      exists i :: IsFirstArm(reg.autocomplete, e, i) && r.value == reg.autocomplete[i].1.request(query)
  {
    match FirstArm(reg.autocomplete, e)
    case None => None
    case Some(i) => Some(reg.autocomplete[i].1.request(query))
  }

  /** `Engine::parse_autocomplete_response`: like `parse_response`, an error
      for an unlisted engine and for parser `None`. */
  function ParseAutocompleteResponse(reg: Registry, e: Engine, body: string): (r: Result<seq<string>, string>)
    requires IsDeclared(reg, e)
    ensures !IsListed(reg.autocomplete, e) ==> r == Failure(CantParseAutocomplete(reg, e))
    ensures IsListed(reg.autocomplete, e) ==>
      exists i :: IsFirstArm(reg.autocomplete, e, i)
        && (reg.autocomplete[i].1.parse.None? ==> r == Failure(CantParseAutocomplete(reg, e)))
        && (reg.autocomplete[i].1.parse.Some? ==> r == reg.autocomplete[i].1.parse.value(body))
  {
    match FirstArm(reg.autocomplete, e)
    case None => Failure(CantParseAutocomplete(reg, e))
    case Some(i) =>
      match reg.autocomplete[i].1.parse
      case None => Failure(CantParseAutocomplete(reg, e))
      case Some(parse) => parse(body)
  }

  /** `Engine::postsearch_request`: whatever the engine's own request builder
      decides, and `None` for an engine without the postsearch capability. */
  function PostsearchRequest(reg: Registry, e: Engine, response: Response): (r: Option<HttpRequest>)
    ensures !IsListed(reg.postsearch, e) ==> r.None?
    ensures IsListed(reg.postsearch, e) ==>
      exists i :: IsFirstArm(reg.postsearch, e, i) && r == reg.postsearch[i].1.request(response)
  {
    match FirstArm(reg.postsearch, e)
    case None => None
    case Some(i) => reg.postsearch[i].1.request(response)
  }

  /** `Engine::postsearch_parse_response`: the parser's markup; `None`, never
      an error, for an unlisted engine and for parser `None`. */
  function PostsearchParseResponse(reg: Registry, e: Engine, res: HttpResponse): (r: Option<string>)
    ensures !IsListed(reg.postsearch, e) ==> r.None?
    ensures IsListed(reg.postsearch, e) ==>
      exists i :: IsFirstArm(reg.postsearch, e, i)
        && (reg.postsearch[i].1.parse.None? ==> r.None?)
        && (reg.postsearch[i].1.parse.Some? ==> r == reg.postsearch[i].1.parse.value(res))
  {
    match FirstArm(reg.postsearch, e)
    case None => None
    case Some(i) =>
      match reg.postsearch[i].1.parse
      case None => None
      case Some(parse) => parse(res)
  }
}
