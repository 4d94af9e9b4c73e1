/**
 * The read endpoints `/lists`, `/candidates` and `/person`: a required query
 * parameter, then a dataset query. The dataset queries are passed in as
 * functions from the parameter's value to result rows.
 */
module Handlers {
  import opened Common
  import opened Models
  import opened Enricher

  const CityUriParam: string := "cityURI"
  const ListUriParam: string := "listURI"
  const PersonUriParam: string := "personURI"
  const WrongParametersMessage: string := "Wrong query parameters"

  /** Query arguments: parameter name to the values given for it. */
  type Args = map<string, seq<string>>

  /** `req.args[name][0]`: the first value, a `KeyError`, or an `IndexError` on an empty list. */
  datatype ArgLookup = Found(value: string) | KeyMissing | NoValues

  function LookupArg(args: Args, name: string): (r: ArgLookup)
    ensures r.KeyMissing? <==> name !in args
    ensures r.NoValues? ==> args[name] == []
    ensures r.Found? ==> name in args && |args[name]| > 0 && r.value == args[name][0]
  {
    if name !in args then KeyMissing
    else if |args[name]| == 0 then NoValues
    else Found(args[name][0])
  }

  /** The 400 answer to a missing parameter; its body spells the flag `succes`. */
  function WrongParameters(): Response {
    JsonResponse(400, map["message" := Str(WrongParametersMessage), "succes" := Bool(false)])
  }

  function QueryResult(rows: seq<Row>): Response {
    JsonResponse(200, map["success" := Bool(true), "result" := RowsValue(rows)])
  }

  /** The parameter guard followed by the query, as `/lists` and `/person` run it. */
  function GuardedQuery(args: Args, name: string, query: string -> seq<Row>): (r: Response)
    ensures (r.JsonResponse? && r.status == 400) <==> name !in args
    ensures r.InternalServerError? <==> name in args && |args[name]| == 0
  {
    match LookupArg(args, name)
    case KeyMissing => WrongParameters()
    case NoValues => InternalServerError
    case Found(value) => QueryResult(query(value))
  }

  function Lists(args: Args, getLists: string -> seq<Row>): (r: Response)
    ensures (r.JsonResponse? && r.status == 400) <==> CityUriParam !in args
  {
    GuardedQuery(args, CityUriParam, getLists)
  }

  function Person(args: Args, getPersonInfo: string -> seq<Row>): (r: Response)
    ensures (r.JsonResponse? && r.status == 400) <==> PersonUriParam !in args
  {
    GuardedQuery(args, PersonUriParam, getPersonInfo)
  }

  /** What `/candidates` answers over the stored rows `rows`. */
  function CandidatesResponse(rows: seq<WebIdRecord>, args: Args, getCandidates: string -> seq<Row>): (r: Response)
    ensures (r.JsonResponse? && r.status == 400) <==> ListUriParam !in args
    ensures r.JsonResponse? && r.status == 200 ==>
      && ListUriParam in args && |args[ListUriParam]| > 0
      && "result" in r.body && r.body["result"].List?
      && |r.body["result"].items| == |getCandidates(args[ListUriParam][0])|
  {
    match LookupArg(args, ListUriParam)
    case KeyMissing => WrongParameters()
    case NoValues => InternalServerError
    case Found(listUri) =>
      var candidates := getCandidates(listUri);
      if AllHavePersonUri(candidates) then QueryResult(EnrichAll(candidates, rows))
      else InternalServerError
  }

  /** The `/candidates` handler: guard, query, then the in-place enrichment loop. */
  method Candidates(store: WebIdStore, args: Args, getCandidates: string -> seq<Row>) returns (response: Response)
    ensures response == CandidatesResponse(store.rows, args, getCandidates)
  {
    match LookupArg(args, ListUriParam) {
      case KeyMissing =>
        response := WrongParameters();
      case NoValues =>
        response := InternalServerError;
      case Found(listUri) =>
        var candidates := getCandidates(listUri);
        var rows := new Row[|candidates|](i requires 0 <= i < |candidates| => candidates[i]);
        assert rows[..] == candidates;
        var completed := EnrichCandidates(rows, store);
        if completed {
          response := QueryResult(rows[..]);
        } else {
          response := InternalServerError;
        }
    }
  }

  /**
   * A missing parameter is answered with 400 and the body
   * `{message, succes: false}` (no `success` key) before any query runs:
   * the answer does not depend on the query function.
   */
  lemma GuardRejectsMissing(args: Args, name: string, query: string -> seq<Row>, otherQuery: string -> seq<Row>)
    requires name !in args
    ensures var r := GuardedQuery(args, name, query);
      && r == GuardedQuery(args, name, otherQuery)
      && r.JsonResponse? && r.status == 400
      && r.body == map["message" := Str(WrongParametersMessage), "succes" := Bool(false)]
      && "success" !in r.body
  {
  }

  /** With the parameter given, the handler answers 200 with the query's rows for its first value. */
  lemma GuardPassesGiven(args: Args, name: string, query: string -> seq<Row>)
    requires name in args && |args[name]| > 0
    ensures var r := GuardedQuery(args, name, query);
      && r.JsonResponse? && r.status == 200
      && r.body["success"] == Bool(true)
      && r.body["result"] == RowsValue(query(args[name][0]))
  {
  }

  /** `/lists` answers 400 without `cityURI`, and otherwise the city's lists for its first value. */
  lemma ListsGuarded(args: Args, getLists: string -> seq<Row>)
    ensures CityUriParam !in args ==> Lists(args, getLists) == WrongParameters()
    ensures CityUriParam in args && |args[CityUriParam]| > 0 ==>
      Lists(args, getLists) == QueryResult(getLists(args[CityUriParam][0]))
  {
  }

  /** `/person` answers 400 without `personURI`, and otherwise the person's memberships for its first value. */
  lemma PersonGuarded(args: Args, getPersonInfo: string -> seq<Row>)
    ensures PersonUriParam !in args ==> Person(args, getPersonInfo) == WrongParameters()
    ensures PersonUriParam in args && |args[PersonUriParam]| > 0 ==>
      Person(args, getPersonInfo) == QueryResult(getPersonInfo(args[PersonUriParam][0]))
  {
  }

  /**
   * `/candidates` without `listURI` is the same 400 whatever the table and the
   * query; with it, the result lists one entry per candidate, in order, each
   * the candidate enriched against the table.
   */
  lemma CandidatesShape(rows: seq<WebIdRecord>, otherRows: seq<WebIdRecord>, args: Args,
                        getCandidates: string -> seq<Row>, otherQuery: string -> seq<Row>)
    ensures ListUriParam !in args ==>
      CandidatesResponse(rows, args, getCandidates) == WrongParameters() == CandidatesResponse(otherRows, args, otherQuery)
    ensures ListUriParam in args && |args[ListUriParam]| > 0 && AllHavePersonUri(getCandidates(args[ListUriParam][0])) ==>
      var candidates := getCandidates(args[ListUriParam][0]);
      var r := CandidatesResponse(rows, args, getCandidates);
      && r.JsonResponse? && r.status == 200
      && r.body["result"].List?
      && |r.body["result"].items| == |candidates|
      && (forall i :: 0 <= i < |candidates| ==> r.body["result"].items[i] == RowValue(Enriched(candidates[i], rows)))
  {
    if ListUriParam in args && |args[ListUriParam]| > 0 && AllHavePersonUri(getCandidates(args[ListUriParam][0])) {
      EnrichAllAt(getCandidates(args[ListUriParam][0]), rows);
    }
  }
}
