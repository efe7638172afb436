/** The autocomplete endpoint (src/web/autocomplete.rs): the `q` parameter is
    cleaned of newlines, rejected when it holds an ESC character, otherwise
    censored when flagged and handed to the autocomplete fan-out. The censor
    and the fan-out are parameters. */
module Autocomplete {
  import opened Wrappers
  import Text

  /** U+001B ESCAPE. */
  const Esc: char := '\U{001B}'

  datatype Status = Ok | BadRequest | InternalServerError

  /** The HTTP status code sent. */
  function Code(s: Status): (r: nat)
    ensures 200 <= r < 600
    ensures s == Ok <==> r == 200
    ensures s == BadRequest <==> r == 400
    ensures s == InternalServerError <==> r == 500
  {
    match s
    case Ok => 200
    case BadRequest => 400
    case InternalServerError => 500
  }

  /** The reply: a status and the JSON pair `(query, suggestions)`. */
  datatype Reply = Reply(status: Status, query: string, suggestions: seq<string>)

  /** The query text: the `q` parameter, or empty without one, with every
      newline turned into a space. */
  function Query(params: map<string, string>): (r: string)
    ensures "q" !in params ==> r == ""
    ensures "q" in params ==> |r| == |params["q"]|
    ensures '\n' !in r
    ensures forall c :: c != '\n' && c != ' ' ==> (c in r <==> "q" in params && c in params["q"])
    ensures var raw := if "q" in params then params["q"] else "";
            |r| == |raw| && forall i :: 0 <= i < |r| ==> r[i] == (if raw[i] == '\n' then ' ' else raw[i])
  {
    var raw := if "q" in params then params["q"] else "";
    var r := Text.ReplaceChar(raw, '\n', ' ');
    assert forall c :: c != '\n' && c != ' ' && c in raw ==> c in r by {
      forall c | c != '\n' && c != ' ' && c in raw ensures c in r {
        var i :| 0 <= i < |raw| && raw[i] == c;
        assert r[i] == c;
      }
    }
    r
  }

  /** `route`. An ESC anywhere in the query gives 400 with the query minus
      its ESC characters and no suggestions; otherwise the query is censored
      if `isInappropriate` flags it, and the fan-out's suggestions are sent
      with 200, or none with 500 when it fails. */
  function Route(
    params: map<string, string>,
    isInappropriate: string -> bool,
    censor: string -> string,
    autocomplete: string -> Result<seq<string>, string>): (r: Reply)
    ensures r.status == BadRequest <==> Esc in Query(params)
    ensures r.status == BadRequest ==> Esc !in r.query && r.suggestions == []
    ensures r.status == InternalServerError ==> r.suggestions == []
    ensures r.status != BadRequest ==>
      && (!isInappropriate(Query(params)) ==> r.query == Query(params))
      && (isInappropriate(Query(params)) ==> r.query == censor(Query(params)))
      && (r.status == Ok <==> autocomplete(r.query).Success?)
      && (r.status == Ok ==> r.suggestions == autocomplete(r.query).value)
  {
    var query := Query(params);
    if Esc in query then Reply(BadRequest, Text.RemoveChar(query, Esc), [])
    else
      var query := if isInappropriate(query) then censor(query) else query;
      match autocomplete(query)
      case Success(suggestions) => Reply(Ok, query, suggestions)
      case Failure(_) => Reply(InternalServerError, query, [])
  }

  /** The ESC check comes first: a rejected query is echoed without its ESC
      characters and otherwise unaltered, whatever the censor and the fan-out
      would have done. */
  lemma RejectionIgnoresCensorAndFanOut(
    params: map<string, string>,
    flag1: string -> bool, censor1: string -> string, fanOut1: string -> Result<seq<string>, string>,
    flag2: string -> bool, censor2: string -> string, fanOut2: string -> Result<seq<string>, string>)
    requires Esc in Query(params)
    ensures Route(params, flag1, censor1, fanOut1) == Route(params, flag2, censor2, fanOut2)
    ensures Route(params, flag1, censor1, fanOut1).query == Text.RemoveChar(Query(params), Esc)
  {
  }

  /** The rejection is decided on the raw parameter: newline replacement
      neither introduces nor removes an ESC. */
  lemma RejectedExactlyOnRawEsc(
    params: map<string, string>,
    isInappropriate: string -> bool,
    censor: string -> string,
    autocomplete: string -> Result<seq<string>, string>)
    ensures Route(params, isInappropriate, censor, autocomplete).status == BadRequest
      <==> "q" in params && Esc in params["q"]
  {
    assert Esc != '\n' && Esc != ' ';
  }

  /** An accepted query that is not flagged reaches the fan-out exactly as
      cleaned, and the fan-out's suggestions are passed on unchanged. */
  lemma AcceptedUncensored(
    params: map<string, string>,
    isInappropriate: string -> bool,
    censor: string -> string,
    autocomplete: string -> Result<seq<string>, string>)
    requires Esc !in Query(params) && !isInappropriate(Query(params))
    requires autocomplete(Query(params)).Success?
    ensures Route(params, isInappropriate, censor, autocomplete)
      == Reply(Ok, Query(params), autocomplete(Query(params)).value)
  {
  }
}
